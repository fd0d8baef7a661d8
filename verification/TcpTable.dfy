/** The connection table over whole runs: what every reachable state of the engine satisfies,
    whatever segments arrive and whatever the application does within its contract. */
module TcpTable {
  import opened Bytes
  import opened Tcp

  // ----- runs -----

  /** One invocation of the engine. `area` is what the buffer holds at uip_sappdata before it. */
  datatype Op =
    | Segm(seg: Segment, area: seq<byte>, calls: seq<AppCall>)
    | Tick(i: nat, area: seq<byte>, calls: seq<AppCall>)
    | PollConn(i: nat, area: seq<byte>, calls: seq<AppCall>)
    | Connect(ripaddr: Addr, rport: u16)
    | Listen(port: u16)
    | Unlisten(port: u16)

  ghost predicate Applicable(e: Engine, op: Op, tcpMss: u16) {
    match op
    case Segm(seg, area, calls) =>
      tcpMss <= |area| && RoomAll(e.conns, area) && Fits(calls, area) && 44 <= |area| && InputReturns(e, seg, area)
    case Tick(i, area, calls) => i < |e.conns| && tcpMss <= |area| && RoomAll(e.conns, area) && Fits(calls, area)
    case PollConn(i, area, calls) => i < |e.conns| && tcpMss <= |area| && RoomAll(e.conns, area) && Fits(calls, area)
    case _ => true
  }

  ghost function Exec(e: Engine, op: Op, host: Addr, tcpMss: u16): Result
    requires Applicable(e, op, tcpMss)
  {
    match op
    case Segm(seg, area, calls) => Input(e, seg, area, calls, host, tcpMss)
    case Tick(i, area, calls) =>
      var s := Timer(e.conns[i], area, calls);
      Result(e.(conns := e.conns[i := s.c], slen := s.slen, iss := Plus(e.iss, 1)), OnWire(s, None, host, tcpMss),
             s.call)
    case PollConn(i, area, calls) =>
      var s := Poll(e.conns[i], e.slen, area, calls);
      Result(e.(conns := e.conns[i := s.c], slen := s.slen), OnWire(s, None, host, tcpMss), s.call)
    case Connect(ripaddr, rport) => Result(ConnectTo(e, ripaddr, rport, tcpMss), None, None)
    case Listen(port) => Result(e.(ports := Update(e.ports, 0, port)), None, None)
    case Unlisten(port) => Result(e.(ports := Update(e.ports, port, 0)), None, None)
  }

  function CallsOf(op: Op): seq<AppCall> {
    if op.Segm? || op.Tick? || op.PollConn? then op.calls else []
  }

  /** Whether the calls leave a connection stopped: the last uip_stop() or uip_restart() decides. */
  function LeftStopped(stopped: bool, calls: seq<AppCall>): bool
    decreases |calls|
  {
    if calls == [] then stopped
    else LeftStopped(if calls[0].Stop? then true else if calls[0].Restart? then false else stopped, calls[1..])
  }

  /** The application's side of the contract: it does not leave a connection stopped that is closed or
      about to be. Nothing less would do, see `ExecKeepsInv`. */
  predicate StopHarmless(call: Option<Callback>, calls: seq<AppCall>) {
    call.Some? && call.value.c.state in {CLOSED, CLOSING, TIME_WAIT} ==> !LeftStopped(false, calls)
  }

  /** The run of ops from e is defined, and the application keeps its contract in it. */
  ghost predicate Runs(e: Engine, ops: seq<Op>, host: Addr, tcpMss: u16)
    decreases |ops|
  {
    ops == [] ||
    (Applicable(e, ops[0], tcpMss) &&
     var r := Exec(e, ops[0], host, tcpMss);
     StopHarmless(r.call, CallsOf(ops[0])) && Runs(r.e, ops[1..], host, tcpMss))
  }

  ghost function After(e: Engine, ops: seq<Op>, host: Addr, tcpMss: u16): Engine
    requires Runs(e, ops, host, tcpMss)
    decreases |ops|
  {
    if ops == [] then e else After(Exec(e, ops[0], host, tcpMss).e, ops[1..], host, tcpMss)
  }

  /** uip_init on zeroed memory. */
  function Init(n: nat, ports: nat, iss: Quad): Engine {
    var zero := Quad(0, 0, 0, 0);
    Engine(seq(n, _ => Conn(Addr(0, 0), 0, 0, zero, zero, 0, 0, 0, 0, 0, 0, CLOSED, false, 0, 0)),
           seq(ports, _ => 0), iss, 0, 1024)
  }

  // ----- what every reachable state satisfies -----

  predicate SameKey(c: Conn, d: Conn) {
    c.ripaddr == d.ripaddr && c.lport == d.lport && c.rport == d.rport
  }

  predicate Distinct(conns: seq<Conn>) {
    forall i, j :: 0 <= i < j < |conns| && SameKey(conns[i], conns[j]) ==> Is(conns[i], CLOSED) || Is(conns[j], CLOSED)
  }

  predicate ConnInv(c: Conn, tcpMss: u16) {
    && c.mss <= c.initialmss <= tcpMss
    && c.len <= tcpMss
    && c.nrtx <= MAXRTX
    && (c.state in {SYN_RCVD, SYN_SENT} ==> c.nrtx <= MAXSYNRTX)
    && (c.state in {SYN_RCVD, SYN_SENT, FIN_WAIT_1, CLOSING, LAST_ACK} ==> c.len == 1)
    && (c.state in {FIN_WAIT_2, TIME_WAIT} ==> c.len == 0)
    && (c.stopped ==> c.state == ESTABLISHED)
  }

  predicate Inv(e: Engine, tcpMss: u16) {
    && 0 < |e.conns| < 0x100
    && e.lastport < 32000
    && Distinct(e.conns)
    && forall c <- e.conns :: ConnInv(c, tcpMss)
  }

  /** In every reachable state the live connections have distinct endpoints, and each satisfies
      the bounds of its state. */
  lemma ReachableInv(n: nat, ports: nat, iss: Quad, ops: seq<Op>, host: Addr, tcpMss: u16)
    requires 0 < n < 0x100 && tcpMss > 0
    requires Runs(Init(n, ports, iss), ops, host, tcpMss)
    ensures Inv(After(Init(n, ports, iss), ops, host, tcpMss), tcpMss)
  {
    RunKeepsInv(Init(n, ports, iss), ops, host, tcpMss);
  }

  lemma {:induction false} RunKeepsInv(e: Engine, ops: seq<Op>, host: Addr, tcpMss: u16)
    requires Inv(e, tcpMss) && tcpMss > 0
    requires Runs(e, ops, host, tcpMss)
    ensures Inv(After(e, ops, host, tcpMss), tcpMss)
    decreases |ops|
  {
    if ops != [] {
      ExecKeepsInv(e, ops[0], host, tcpMss);
      RunKeepsInv(Exec(e, ops[0], host, tcpMss).e, ops[1..], host, tcpMss);
    }
  }

  /** Every operation keeps the invariant, exactly if the application keeps its contract in it. */
  lemma ExecKeepsInv(e: Engine, op: Op, host: Addr, tcpMss: u16)
    requires Inv(e, tcpMss) && tcpMss > 0
    requires Applicable(e, op, tcpMss)
    ensures var r := Exec(e, op, host, tcpMss);
      Inv(r.e, tcpMss) <==> StopHarmless(r.call, CallsOf(op))
  {
    match op
    case Segm(seg, area, calls) => InputKeepsInv(e, seg, area, calls, host, tcpMss);
    case Tick(i, area, calls) =>
      TimerKeeps(e.conns[i], area, calls, tcpMss);
      StepKeepsInv(e, i, Timer(e.conns[i], area, calls).c, tcpMss);
    case PollConn(i, area, calls) =>
      PollKeeps(e.conns[i], e.slen, area, calls, tcpMss);
      StepKeepsInv(e, i, Poll(e.conns[i], e.slen, area, calls).c, tcpMss);
    case Connect(ripaddr, rport) => ConnectKeepsInv(e, ripaddr, rport, tcpMss);
    case Listen(_) =>
    case Unlisten(_) =>
  }

  lemma InputKeepsInv(e: Engine, seg: Segment, area: seq<byte>, calls: seq<AppCall>, host: Addr, tcpMss: u16)
    requires Inv(e, tcpMss) && tcpMss > 0
    requires RoomAll(e.conns, area) && Fits(calls, area) && tcpMss <= |area| && 44 <= |area|
    ensures var r := Input(e, seg, area, calls, host, tcpMss);
      Inv(r.e, tcpMss) <==> StopHarmless(r.call, calls)
  {
    var i := FindConn(e.conns, seg);
    if i < |e.conns| {
      ArriveKeeps(e.conns[i], e.slen, seg, area, calls, tcpMss);
      StepKeepsInv(e, i, Arrive(e.conns[i], e.slen, seg, area, calls, tcpMss).c, tcpMss);
    } else if seg.flags == SYN && seg.dport in e.ports {
      var k := Slot(e.conns, |e.conns|);
      if k >= 0 {
        assert ConnInv(e.conns[k], tcpMss);
        NewConnKeepsInv(e.conns, k, Accept(e.conns[k], seg, e.iss, area, tcpMss), tcpMss);
      }
    }
  }

  lemma NewConnKeepsInv(conns: seq<Conn>, k: nat, c: Conn, tcpMss: u16)
    requires k < |conns| && Distinct(conns) && (forall d <- conns :: ConnInv(d, tcpMss)) && ConnInv(c, tcpMss)
    requires forall d <- conns :: SameKey(c, d) ==> Is(d, CLOSED)
    ensures Distinct(conns[k := c]) && (forall d <- conns[k := c] :: ConnInv(d, tcpMss))
  {
  }

  // ----- single connections -----

  lemma {:induction false} RunStops(v: AppView, calls: seq<AppCall>)
    requires Fits(calls, v.area)
    ensures Run(v, calls).stopped == LeftStopped(v.stopped, calls)
    decreases |calls|
  {
    if calls != [] {
      RunStops(Apply(v, calls[0]), calls[1..]);
    }
  }

  /** What a step keeps of a connection: its endpoints, and that it is CLOSED. */
  predicate Keeps(c: Conn, c': Conn) {
    SameKey(c, c') && (Is(c, CLOSED) ==> Is(c', CLOSED))
  }

  lemma StepKeepsInv(e: Engine, i: nat, c: Conn, tcpMss: u16)
    requires Inv(e, tcpMss) && i < |e.conns| && Keeps(e.conns[i], c)
    ensures Distinct(e.conns[i := c])
    ensures (forall d <- e.conns[i := c] :: ConnInv(d, tcpMss)) <==> ConnInv(c, tcpMss)
  {
    assert c == e.conns[i := c][i];
  }

  lemma AppSendKeeps(c: Conn, flags: set<Flag>, slen: u16, data: seq<byte>, area: seq<byte>, calls: seq<AppCall>,
                     tcpMss: u16)
    requires Room(c, area) && Fits(calls, area) && tcpMss > 0 && ConnInv(c, tcpMss) && c.state == ESTABLISHED
    ensures var s := CallAndSend(c, flags, slen, data, area, calls); Keeps(c, s.c) && ConnInv(s.c, tcpMss)
  {
  }

  lemma CallOnlyKeeps(c: Conn, flags: set<Flag>, slen: u16, data: seq<byte>, area: seq<byte>, calls: seq<AppCall>,
                      out: Output, tcpMss: u16)
    requires Fits(calls, area) && ConnInv(c, tcpMss)
    ensures var s := CallOnly(c, flags, slen, data, area, calls, out);
      SameKey(c, s.c) && (ConnInv(s.c, tcpMss) <==> c.state == ESTABLISHED || !LeftStopped(false, calls))
  {
    RunStops(AppView(flags, slen, c.stopped, area), calls);
  }

  lemma TimerKeeps(c: Conn, area: seq<byte>, calls: seq<AppCall>, tcpMss: u16)
    requires Room(c, area) && Fits(calls, area) && tcpMss > 0 && ConnInv(c, tcpMss)
    ensures var s := Timer(c, area, calls);
      Keeps(c, s.c) && (ConnInv(s.c, tcpMss) <==> StopHarmless(s.call, calls))
  {
    if !Is(c, TIME_WAIT) && !Is(c, FIN_WAIT_2) && !Is(c, CLOSED) {
      if c.len > 0 && c.timer == 0 && GivesUp(c) {
        CallOnlyKeeps(Enter(c, CLOSED).(timer := 0xff), {TIMEDOUT}, 0, [], area, calls,
                      Emit(RST_ACK, false, []), tcpMss);
      } else if c.len == 0 && c.state == ESTABLISHED {
        AppSendKeeps(c, {POLL}, 0, [], area, calls, tcpMss);
      }
    }
  }

  lemma PollKeeps(c: Conn, slen: u16, area: seq<byte>, calls: seq<AppCall>, tcpMss: u16)
    requires Room(c, area) && Fits(calls, area) && tcpMss > 0 && ConnInv(c, tcpMss)
    ensures var s := Poll(c, slen, area, calls);
      Keeps(c, s.c) && ConnInv(s.c, tcpMss) && StopHarmless(s.call, calls)
  {
    if c.state == ESTABLISHED && c.len == 0 {
      AppSendKeeps(c, {POLL}, slen, [], area, calls, tcpMss);
    }
  }

  lemma ArriveKeeps(c: Conn, slen: u16, seg: Segment, area: seq<byte>, calls: seq<AppCall>, tcpMss: u16)
    requires Room(c, area) && Fits(calls, area) && 0 < tcpMss <= |area| && ConnInv(c, tcpMss) && !Is(c, CLOSED)
    ensures var s := Arrive(c, slen, seg, area, calls, tcpMss);
      Keeps(c, s.c) && (ConnInv(s.c, tcpMss) <==> StopHarmless(s.call, calls))
  {
    if seg.flags.rst {
      CallOnlyKeeps(Enter(c, CLOSED), {ABORT}, slen, [], area, calls, Silent, tcpMss);
    } else if !OutOfOrder(c, seg) {
      var acked := Acks(c, seg);
      var c1 := if acked then TakeAck(c) else c;
      InStateKeeps(c, c1, acked, slen, seg, area, calls, tcpMss);
    }
  }

  /** The handshakes: SYN_RCVD and SYN_SENT. */
  lemma OpeningKeeps(c0: Conn, c: Conn, acked: bool, slen: u16, seg: Segment, area: seq<byte>, calls: seq<AppCall>,
                     tcpMss: u16)
    requires Room(c, area) && Fits(calls, area) && 0 < tcpMss <= |area| && ConnInv(c0, tcpMss)
    requires if acked then c == TakeAck(c0) else c == c0
    requires c.state in {SYN_RCVD, SYN_SENT}
    ensures var s := InState(c, acked, slen, seg, area, calls, tcpMss);
      Keeps(c0, s.c) && (ConnInv(s.c, tcpMss) <==> StopHarmless(s.call, calls))
  {
    var n := DataLen(seg);
    if c.state == SYN_RCVD {
      if acked {
        var c1 := Enter(c, ESTABLISHED).(len := 0);
        AppSendKeeps(if n > 0 then Received(c1, n) else c1, if n > 0 then {CONNECTED, NEWDATA} else {CONNECTED}, 0,
                     if n > 0 then Shown(area, 0, n) else [], area, calls, tcpMss);
      }
    } else if acked && seg.flags == SYN_ACK {
      var c1 := Synchronized(c, seg, area, tcpMss);
      AppSendKeeps(c1, {CONNECTED, NEWDATA}, 0, [], area, calls, tcpMss);
    }
  }

  /** c0 is the connection before its outstanding data was acknowledged, c after. */
  lemma InStateKeeps(c0: Conn, c: Conn, acked: bool, slen: u16, seg: Segment, area: seq<byte>, calls: seq<AppCall>,
                     tcpMss: u16)
    requires Room(c, area) && Fits(calls, area) && 0 < tcpMss <= |area| && ConnInv(c0, tcpMss) && !Is(c0, CLOSED)
    requires if acked then c == TakeAck(c0) else c == c0
    ensures var s := InState(c, acked, slen, seg, area, calls, tcpMss);
      Keeps(c0, s.c) && (ConnInv(s.c, tcpMss) <==> StopHarmless(s.call, calls))
  {
    var n := DataLen(seg);
    match c.state
    case CLOSED =>
    case SYN_RCVD => OpeningKeeps(c0, c, acked, slen, seg, area, calls, tcpMss);
    case SYN_SENT => OpeningKeeps(c0, c, acked, slen, seg, area, calls, tcpMss);
    case ESTABLISHED => InEstablishedKeeps(c, acked, slen, seg, area, calls, tcpMss);
    case FIN_WAIT_1 => InFinWait1Keeps(c0, c, acked, slen, seg, area, calls, tcpMss);
    case FIN_WAIT_2 =>
      if seg.flags.fin {
        var c1 := if n > 0 then Received(c, n) else c;
        CallOnlyKeeps(Received(Enter(c1, TIME_WAIT).(timer := 0), 1), {CLOSE}, slen, [], area, calls, PureAck, tcpMss);
      }
    case CLOSING =>
    case TIME_WAIT =>
    case LAST_ACK =>
      if acked {
        CallOnlyKeeps(Enter(c, CLOSED), {CLOSE}, slen, [], area, calls, Silent, tcpMss);
      }
  }

  lemma InFinWait1Keeps(c0: Conn, c: Conn, acked: bool, slen: u16, seg: Segment, area: seq<byte>, calls: seq<AppCall>,
                        tcpMss: u16)
    requires Room(c, area) && Fits(calls, area) && 0 < tcpMss <= |area| && ConnInv(c0, tcpMss) && c0.state == FIN_WAIT_1
    requires if acked then c == TakeAck(c0) else c == c0
    ensures var s := InState(c, acked, slen, seg, area, calls, tcpMss);
      Keeps(c0, s.c) && (ConnInv(s.c, tcpMss) <==> StopHarmless(s.call, calls))
  {
    if seg.flags.fin {
      var n := DataLen(seg);
      var c1 := if n > 0 then Received(c, n) else c;
      var c2 := if acked then Enter(c1, TIME_WAIT).(timer := 0, len := 0) else Enter(c1, CLOSING);
      CallOnlyKeeps(Received(c2, 1), {CLOSE}, slen, [], area, calls, PureAck, tcpMss);
    }
  }

  lemma InEstablishedKeeps(c: Conn, acked: bool, slen: u16, seg: Segment, area: seq<byte>, calls: seq<AppCall>,
                           tcpMss: u16)
    requires Room(c, area) && Fits(calls, area) && 0 < tcpMss && ConnInv(c, tcpMss) && c.state == ESTABLISHED
    ensures var s := InEstablished(c, acked, slen, seg, area, calls);
      Keeps(c, s.c) && ConnInv(s.c, tcpMss) && StopHarmless(s.call, calls)
  {
    var ackFlag := if acked then {ACKDATA} else {};
    var n := Accepted(c, seg);
    if !(seg.flags.fin && !c.stopped) && (n > 0 || acked) {
      AppSendKeeps(TakeWindow(if n > 0 then Received(c, n) else c, seg.wnd),
                   ackFlag + (if n > 0 then {NEWDATA} else {}), 0,
                   if n > 0 then Shown(area, DataFrom(seg), n) else [], area, calls, tcpMss);
    }
  }

  // ----- slots -----

  /** A new connection takes the first CLOSED slot, or failing that a TIME_WAIT slot that has
      waited longest, or no slot when there is neither. */
  lemma {:induction false} SlotIsBest(conns: seq<Conn>, i: nat)
    requires i <= |conns|
    ensures var k := Slot(conns, i);
      && (k < 0 <==> forall j :: 0 <= j < i ==> !Is(conns[j], CLOSED) && !Is(conns[j], TIME_WAIT))
      && (k >= 0 ==>
            || (Is(conns[k], CLOSED) && forall j :: 0 <= j < k ==> !Is(conns[j], CLOSED))
            || (Is(conns[k], TIME_WAIT) && forall j :: 0 <= j < i ==>
                  !Is(conns[j], CLOSED) && (Is(conns[j], TIME_WAIT) ==> conns[j].timer <= conns[k].timer)))
  {
    if i > 0 {
      SlotIsBest(conns, i - 1);
    }
  }

  lemma {:induction false} ClosedSlotStays(conns: seq<Conn>, k: nat, i: nat, n: nat)
    requires k < i <= n <= |conns| && Is(conns[k], CLOSED) && Slot(conns, i) == k
    ensures Slot(conns, n) == k
  {
    if i < n {
      ClosedSlotStays(conns, k, i, n - 1);
    }
  }

  /** A SYN for a listening port never displaces a connection: only the slot chosen changes, and
      that was CLOSED or in TIME_WAIT. */
  lemma SynDisplacesNothing(e: Engine, seg: Segment, area: seq<byte>, calls: seq<AppCall>, host: Addr, tcpMss: u16)
    requires RoomAll(e.conns, area) && Fits(calls, area) && tcpMss <= |area| && 44 <= |area|
    requires FindConn(e.conns, seg) == |e.conns|
    ensures var e' := Input(e, seg, area, calls, host, tcpMss).e;
      |e'.conns| == |e.conns| &&
      forall j :: 0 <= j < |e.conns| ==>
        e'.conns[j] == e.conns[j] ||
        (j == Slot(e.conns, |e.conns|) && (Is(e.conns[j], CLOSED) || Is(e.conns[j], TIME_WAIT)) &&
         e'.conns[j].state == SYN_RCVD)
  {
    SlotIsBest(e.conns, |e.conns|);
  }

  // ----- listening ports -----

  /** The first entry p becomes q, and no other changes. */
  lemma {:induction false} UpdateFirst(ports: seq<u16>, p: u16, q: u16, i: nat)
    requires i < |ports| && ports[i] == p && p !in ports[..i]
    ensures Update(ports, p, q) == ports[i := q]
    decreases i
  {
    if i > 0 {
      assert ports[..i] == [ports[0]] + ports[1..][..i - 1];
      UpdateFirst(ports[1..], p, q, i - 1);
      assert ports[i := q] == [ports[0]] + ports[1..][i - 1 := q];
    }
  }

  lemma {:induction false} UpdateNone(ports: seq<u16>, p: u16, q: u16)
    requires p !in ports
    ensures Update(ports, p, q) == ports
    decreases |ports|
  {
    if ports != [] {
      UpdateNone(ports[1..], p, q);
    }
  }

  /** uip_listen() listens, if there is a free entry. */
  lemma ListenExactly(ports: seq<u16>, port: u16)
    requires port != 0
    ensures port in Update(ports, 0, port) <==> port in ports || 0 in ports
  {
    EntriesOf(ports, 0, port, port);
  }

  /** uip_unlisten() stops listening exactly if it was not listened to twice. */
  lemma UnlistenExactly(ports: seq<u16>, port: u16)
    requires port != 0
    ensures port in Update(ports, port, 0) <==> multiset(ports)[port] >= 2
  {
    EntriesOf(ports, port, 0, port);
  }

  /** How often x occurs afterwards. */
  lemma {:induction false} EntriesOf(ports: seq<u16>, p: u16, q: u16, x: u16)
    requires p != q
    ensures multiset(Update(ports, p, q))[x] ==
      multiset(ports)[x] + if p !in ports then 0 else if x == q then 1 else if x == p then -1 else 0
    decreases |ports|
  {
    if ports != [] {
      assert ports == [ports[0]] + ports[1..];
      if ports[0] != p {
        EntriesOf(ports[1..], p, q, x);
      }
    }
  }

  // ----- local ports of active opens -----

  /** The candidates tried after p form a set of n distinct ports. */
  ghost function Candidates(p: u16, n: nat): set<int>
    decreases n
  {
    if n == 0 then {} else {NextPort(p) as int} + Candidates(NextPort(p), n - 1)
  }

  lemma {:induction false} CandidatesDistinct(p: u16, n: nat)
    requires p < 32000 && n <= 27904
    ensures |Candidates(p, n)| == n
    ensures forall x <- Candidates(p, n) ::
      if p + n < 32000 then p < x <= p + n else p < x < 32000 || 4096 <= x <= 4096 + p + n - 32000
    decreases n
  {
    if n > 0 {
      CandidatesDistinct(NextPort(p), n - 1);
    }
  }

  ghost function UsedPorts(conns: seq<Conn>): set<int> {
    set c <- conns | !Is(c, CLOSED) :: c.lport as int
  }

  lemma {:induction false} FewUsedPorts(conns: seq<Conn>)
    ensures |UsedPorts(conns)| <= |conns|
    decreases |conns|
  {
    if conns != [] {
      FewUsedPorts(conns[1..]);
      assert conns == [conns[0]] + conns[1..];
      assert UsedPorts(conns) <= UsedPorts(conns[1..]) + {conns[0].lport as int};
      SubsetSize(UsedPorts(conns), UsedPorts(conns[1..]) + {conns[0].lport as int});
    }
  }

  lemma {:induction false} FreePortOrAllUsed(conns: seq<Conn>, p: u16, n: nat)
    ensures !PortUsed(conns, FreePort(conns, p, n)) || Candidates(p, n + 1) <= UsedPorts(conns)
    decreases n
  {
    if PortUsed(conns, NextPort(p)) {
      var c :| c in conns && !Is(c, CLOSED) && c.lport == NextPort(p);
      assert NextPort(p) as int in UsedPorts(conns);
      assert Candidates(p, 1) == {NextPort(p) as int};
      if n > 0 {
        FreePortOrAllUsed(conns, NextPort(p), n - 1);
      }
    }
  }

  /** Pigeonhole: among one more candidate than there are slots, one is free. */
  lemma FreePortIsFree(conns: seq<Conn>, p: u16)
    requires p < 32000 && |conns| < 0x100
    ensures !PortUsed(conns, FreePort(conns, p, |conns|))
  {
    var n := |conns|;
    if PortUsed(conns, FreePort(conns, p, n)) {
      FreePortOrAllUsed(conns, p, n);
      CandidatesDistinct(p, n + 1);
      FewUsedPorts(conns);
      SubsetSize(Candidates(p, n + 1), UsedPorts(conns));
      assert false;
    }
  }

  lemma ConnectKeepsInv(e: Engine, ripaddr: Addr, rport: u16, tcpMss: u16)
    requires Inv(e, tcpMss) && tcpMss > 0
    ensures Inv(ConnectTo(e, ripaddr, rport, tcpMss), tcpMss)
  {
    FreePortIsFree(e.conns, e.lastport);
    var k := Slot(e.conns, |e.conns|);
    if k >= 0 {
      var p := FreePort(e.conns, e.lastport, |e.conns|);
      var c := Open(e.conns[k], ripaddr, rport, p, e.iss, tcpMss);
      NewConnKeepsInv(e.conns, k, c, tcpMss);
    }
  }

  // ----- packet sizes -----

  /** The bounds of the invariant are what keeps every access inside the application area: a
      reachable engine can take any segment, tick or poll. */
  lemma InvGivesRoom(e: Engine, area: seq<byte>, tcpMss: u16)
    requires Inv(e, tcpMss) && 44 <= |area| < 0xff00 && tcpMss <= |area|
    ensures RoomAll(e.conns, area)
  {
    forall c | c in e.conns
      ensures Room(c, area)
    {
      assert ConnInv(c, tcpMss);
    }
  }

  /** No TCP packet is longer than its headers and one maximum segment. */
  lemma PacketsFit(e: Engine, op: Op, host: Addr, tcpMss: u16)
    requires Inv(e, tcpMss) && 4 <= tcpMss && Applicable(e, op, tcpMss)
    ensures var out := Exec(e, op, host, tcpMss).out; out.Some? ==> out.value.len <= 40 + tcpMss
  {
    match op
    case Segm(seg, area, calls) =>
      var i := FindConn(e.conns, seg);
      if i < |e.conns| {
        ArriveFits(e.conns[i], e.slen, seg, area, calls, tcpMss);
      }
    case Tick(i, area, calls) => TimerFits(e.conns[i], area, calls, tcpMss);
    case PollConn(i, area, calls) => PollFits(e.conns[i], e.slen, area, calls, tcpMss);
    case Connect(_, _) =>
    case Listen(_) =>
    case Unlisten(_) =>
  }

  predicate FitsMss(out: Output, tcpMss: u16) {
    out.Emit? ==> |out.payload| <= tcpMss
  }

  lemma AppSendFits(c: Conn, flags: set<Flag>, slen: u16, data: seq<byte>, area: seq<byte>, calls: seq<AppCall>,
                    tcpMss: u16)
    requires Room(c, area) && Fits(calls, area) && c.len <= tcpMss && c.mss <= tcpMss
    ensures FitsMss(CallAndSend(c, flags, slen, data, area, calls).out, tcpMss)
  {
  }

  lemma TimerFits(c: Conn, area: seq<byte>, calls: seq<AppCall>, tcpMss: u16)
    requires Room(c, area) && Fits(calls, area) && ConnInv(c, tcpMss)
    ensures FitsMss(Timer(c, area, calls).out, tcpMss)
  {
    AppSendFits(c, {POLL}, 0, [], area, calls, tcpMss);
  }

  lemma PollFits(c: Conn, slen: u16, area: seq<byte>, calls: seq<AppCall>, tcpMss: u16)
    requires Room(c, area) && Fits(calls, area) && ConnInv(c, tcpMss)
    ensures FitsMss(Poll(c, slen, area, calls).out, tcpMss)
  {
    AppSendFits(c, {POLL}, slen, [], area, calls, tcpMss);
  }

  lemma ArriveFits(c: Conn, slen: u16, seg: Segment, area: seq<byte>, calls: seq<AppCall>, tcpMss: u16)
    requires Room(c, area) && Fits(calls, area) && tcpMss <= |area| && ConnInv(c, tcpMss)
    ensures FitsMss(Arrive(c, slen, seg, area, calls, tcpMss).out, tcpMss)
  {
    if !seg.flags.rst && !OutOfOrder(c, seg) {
      var acked := Acks(c, seg);
      InStateFits(if acked then TakeAck(c) else c, acked, slen, seg, area, calls, tcpMss);
    }
  }

  lemma InStateFits(c: Conn, acked: bool, slen: u16, seg: Segment, area: seq<byte>, calls: seq<AppCall>, tcpMss: u16)
    requires Room(c, area) && Fits(calls, area) && tcpMss <= |area|
    requires c.len <= tcpMss && c.mss <= tcpMss && c.initialmss <= tcpMss
    ensures FitsMss(InState(c, acked, slen, seg, area, calls, tcpMss).out, tcpMss)
  {
    var n := DataLen(seg);
    match c.state
    case SYN_RCVD =>
      if acked {
        var c1 := Enter(c, ESTABLISHED).(len := 0);
        AppSendFits(if n > 0 then Received(c1, n) else c1, if n > 0 then {CONNECTED, NEWDATA} else {CONNECTED}, 0,
                    if n > 0 then Shown(area, 0, n) else [], area, calls, tcpMss);
      }
    case SYN_SENT =>
      if acked && seg.flags == SYN_ACK {
        var c1 := Synchronized(c, seg, area, tcpMss);
        AppSendFits(c1, {CONNECTED, NEWDATA}, 0, [], area, calls, tcpMss);
      }
    case ESTABLISHED => InEstablishedFits(c, acked, slen, seg, area, calls, tcpMss);
    case FIN_WAIT_1 =>
    case FIN_WAIT_2 =>
    case CLOSED =>
    case CLOSING =>
    case TIME_WAIT =>
    case LAST_ACK =>
  }

  lemma InEstablishedFits(c: Conn, acked: bool, slen: u16, seg: Segment, area: seq<byte>, calls: seq<AppCall>,
                          tcpMss: u16)
    requires Room(c, area) && Fits(calls, area)
    requires c.len <= tcpMss && c.mss <= tcpMss && c.initialmss <= tcpMss
    ensures FitsMss(InEstablished(c, acked, slen, seg, area, calls).out, tcpMss)
  {
    var n := Accepted(c, seg);
    if !(seg.flags.fin && !c.stopped) && (n > 0 || acked) {
      AppSendFits(Absorbed(c, seg), (if acked then {ACKDATA} else {}) + (if n > 0 then {NEWDATA} else {}), 0,
                  if n > 0 then Shown(area, DataFrom(seg), n) else [], area, calls, tcpMss);
    }
  }
}
