/** The 8-bit round-trip estimator: exactly when its fields keep their true values, over whole runs of
    the engine, and a run in which they do not. */
module TcpRtt {
  import opened Bytes
  import opened Tcp
  import opened TcpTable

  function EstimateAll(r: Rtt, samples: seq<int>): Rtt
    decreases |samples|
  {
    if samples == [] then r else EstimateAll(Estimate(r, samples[0]), samples[1..])
  }

  /** The bounds for samples of at most b ticks. */
  predicate Steady(r: Rtt, b: nat) {
    r.sa <= 8 * b + 7 && 3 <= r.sv <= (if 4 * b + 3 < 16 then 16 else 4 * b + 3)
  }

  /** One step on integers, without any 8-bit truncation. */
  function Ideal(sa: int, sv: int, sample: int): (int, int) {
    var m := sample - sa / 8;
    (sa + m, sv + (if m < 0 then -m else m) - sv / 4)
  }

  /** Samples between 0 and b <= 31 keep the estimator in bounds, and 8-bit arithmetic is exact. */
  lemma StepSteady(r: Rtt, sample: int, b: nat)
    requires Steady(r, b) && 0 <= sample <= b <= 31
    ensures var r' := Estimate(r, sample);
      && Steady(r', b) && r'.rto >= 3
      && (r'.sa as int, r'.sv as int) == Ideal(r.sa, r.sv, sample)
      && r'.rto == r'.sa / 8 + r'.sv
  {
    IdealBounds(r.sa, r.sv, sample, b);
    EstimateExact(r, sample);
  }

  lemma IdealBounds(sa: int, sv: int, sample: int, b: nat)
    requires 0 <= sa <= 8 * b + 7 && 3 <= sv <= (if 4 * b + 3 < 16 then 16 else 4 * b + 3) && 0 <= sample <= b
    ensures var (sa', sv') := Ideal(sa, sv, sample);
      0 <= sa' <= 8 * b + 7 && 3 <= sv' <= (if 4 * b + 3 < 16 then 16 else 4 * b + 3)
  {
  }

  lemma EstimateExact(r: Rtt, sample: int)
    requires 0 <= sample <= 31 && r.sv < 0x80
    requires var (sa', sv') := Ideal(r.sa, r.sv, sample); 0 <= sa' < 0x100 && 0 <= sv' < 0x80
    ensures var r' := Estimate(r, sample);
      (r'.sa as int, r'.sv as int) == Ideal(r.sa, r.sv, sample) && r'.rto == r'.sa / 8 + r'.sv
  {
    var m := sample - r.sa / 8;
    assert SignedChar(SignedChar(sample) - r.sa / 8) == m;
    var a := if m < 0 then -m else m;
    assert SignedChar(SignedChar(a) - r.sv / 4) == a - r.sv / 4;
  }

  /** From the values set by uip_connect or by a SYN, over any sequence of such samples. */
  lemma {:induction false} NeverWraps(r: Rtt, samples: seq<int>, b: nat)
    requires Steady(r, b) && b <= 31 && r.rto >= 3
    requires forall m <- samples :: 0 <= m <= b
    ensures Steady(EstimateAll(r, samples), b) && EstimateAll(r, samples).rto >= 3
    decreases |samples|
  {
    if samples != [] {
      assert samples[0] in samples;
      StepSteady(r, samples[0], b);
      assert forall m <- samples[1..] :: m in samples;
      NeverWraps(Estimate(r, samples[0]), samples[1..], b);
    }
  }

  lemma FreshIsSteady(c: Conn, seg: Segment, iss: Quad, area: seq<byte>, ripaddr: Addr, rport: u16, lport: u16,
                      tcpMss: u16, b: nat)
    requires 44 <= |area|
    ensures var s := Accept(c, seg, iss, area, tcpMss); Steady(Rtt(s.sa, s.sv, s.rto), b) && s.rto >= 3
    ensures var o := Open(c, ripaddr, rport, lport, iss, tcpMss); Steady(Rtt(o.sa, o.sv, o.rto), b) && o.rto >= 3
  {
  }

  // ----- exactly when 8 bits are enough -----

  /** All three fields get the values they would have in unbounded arithmetic. */
  predicate Exact(r: Rtt, sample: int) {
    var (sa, sv) := Ideal(r.sa, r.sv, sample);
    var r' := Estimate(r, sample);
    r'.sa == sa && r'.sv == sv && r'.rto == sa / 8 + sv
  }

  function Abs(x: int): nat {
    if x < 0 then -x else x
  }

  lemma Fold(x: int)
    requires -0x180 <= x < 0x180
    ensures SignedChar(x) == if x < -0x80 then x + 0x100 else if x < 0x80 then x else x - 0x100
  {
  }

  lemma Fold8(x: int)
    requires -0x200 <= x < 0x200
    ensures U8(x) == if x < -0x100 then x + 0x200 else if x < 0 then x + 0x100 else if x < 0x100 then x else x - 0x100
  {
    if x < -0x100 {
      assert U8(x + 0x100) == U8(x + 0x200);
    }
  }

  /** The deviation of the sample, as the code computes it. */
  lemma DeviationOf(r: Rtt, sample: int)
    requires -0xff <= sample <= 0xff
    ensures SignedChar(SignedChar(sample) - r.sa / 8) == SignedChar(sample - r.sa / 8)
  {
    Fold(sample);
    Fold(sample - r.sa / 8);
    Fold(SignedChar(sample) - r.sa / 8);
  }

  /** For every estimate and every sample a connection can give: the fields are exact exactly if the
      deviation is at most 128 and the true values of the three fields lie in a byte. */
  lemma ExactExactly(r: Rtt, sample: int)
    requires -0xff <= sample <= 0xff
    ensures var m := sample - r.sa / 8;
      var sv := r.sv + Abs(m) - r.sv / 4;
      Exact(r, sample) <==> 0 <= r.sa + m <= 0xff && Abs(m) <= 0x80 && sv <= 0xff && (r.sa + m) / 8 + sv <= 0xff
  {
    ExactParts(r, sample);
    AllThree(r.sa, r.sv, sample - r.sa / 8, Estimate(r, sample));
  }

  lemma EstimateIs(r: Rtt, sample: int)
    requires -0xff <= sample <= 0xff
    ensures var e, m := Estimate(r, sample), SignedChar(sample - r.sa / 8);
      e.sa == U8(r.sa + m) && e.sv == U8(r.sv + Abs(m) - r.sv / 4)
  {
    DeviationOf(r, sample);
    MeanDeviation(r, SignedChar(sample - r.sa / 8));
  }

  lemma ExactParts(r: Rtt, sample: int)
    requires -0xff <= sample <= 0xff
    ensures var e, m := Estimate(r, sample), sample - r.sa / 8;
      && (e.sa == r.sa + m <==> 0 <= r.sa + m <= 0xff)
      && (e.sv == r.sv + Abs(m) - r.sv / 4 <==> Abs(m) <= 0x80 && r.sv + Abs(m) - r.sv / 4 <= 0xff)
      && (e.rto == e.sa / 8 + e.sv <==> e.sa / 8 + e.sv <= 0xff)
  {
    EstimateIs(r, sample);
    SaExact(r.sa, sample - r.sa / 8);
    SvExact(r.sv, sample - r.sa / 8);
    RtoExact(r, sample);
  }

  lemma AllThree(sa: byte, sv: byte, m: int, e: Rtt)
    requires e.sa == sa + m <==> 0 <= sa + m <= 0xff
    requires e.sv == sv + Abs(m) - sv / 4 <==> Abs(m) <= 0x80 && sv + Abs(m) - sv / 4 <= 0xff
    requires e.rto == e.sa / 8 + e.sv <==> e.sa / 8 + e.sv <= 0xff
    ensures var sv' := sv + Abs(m) - sv / 4;
      e.sa == sa + m && e.sv == sv' && e.rto == (sa + m) / 8 + sv' <==>
      0 <= sa + m <= 0xff && Abs(m) <= 0x80 && sv' <= 0xff && (sa + m) / 8 + sv' <= 0xff
  {
  }

  lemma SaExact(sa: byte, m: int)
    requires -0x11f <= m <= 0xff
    ensures U8(sa + SignedChar(m)) == sa + m <==> 0 <= sa + m <= 0xff
  {
    Fold(m);
    Fold8(sa + SignedChar(m));
  }

  lemma SvExact(sv: byte, m: int)
    requires -0x11f <= m <= 0xff
    ensures U8(sv + Abs(SignedChar(m)) - sv / 4) == sv + Abs(m) - sv / 4 <==>
      Abs(m) <= 0x80 && sv + Abs(m) - sv / 4 <= 0xff
  {
    Fold(m);
    Fold8(sv + Abs(SignedChar(m)) - sv / 4);
  }

  lemma RtoExact(r: Rtt, sample: int)
    ensures var e := Estimate(r, sample); e.rto == e.sa / 8 + e.sv <==> e.sa / 8 + e.sv <= 0xff
  {
    var e := Estimate(r, sample);
    Fold8(e.sa / 8 + e.sv);
  }

  /** The mean deviation is the sum modulo 256, however the signed char folds on the way. */
  lemma MeanDeviation(r: Rtt, m: int)
    requires -0x80 <= m < 0x80
    ensures U8(r.sv + SignedChar(SignedChar(if m < 0 then -m else m) - r.sv / 4)) == U8(r.sv + Abs(m) - r.sv / 4)
  {
    var a := SignedChar(Abs(m));
    Fold(Abs(m));
    Fold(a - r.sv / 4);
    Fold8(r.sv + SignedChar(a - r.sv / 4));
    Fold8(r.sv + Abs(m) - r.sv / 4);
  }

  /** In the steady range one inequality decides. */
  lemma ExactWhenSteady(r: Rtt, sample: int, b: nat)
    requires Steady(r, b) && -48 <= sample <= b <= 31
    ensures Exact(r, sample) <==> sample + r.sa - r.sa / 8 >= 0
  {
    ExactExactly(r, sample);
  }

  function RttOf(c: Conn): Rtt {
    Rtt(c.sa, c.sv, c.rto)
  }

  /** For a connection: an acknowledgement leaves the true estimate exactly if the retransmission
      clock does not stand too far above rto. */
  lemma AckIsExact(c: Conn, b: nat)
    requires c.nrtx == 0 && Steady(RttOf(c), b) && b <= 31 && -48 <= c.rto - c.timer <= b
    ensures RttOf(TakeAck(c)) == Estimate(RttOf(c), c.rto - c.timer)
    ensures Exact(RttOf(c), c.rto - c.timer) <==> c.timer <= c.rto + c.sa - c.sa / 8
  {
    ExactWhenSteady(RttOf(c), c.rto - c.timer, b);
  }

  // ----- over whole runs of the engine -----

  /** What a run keeps of a connection whose estimator can still be used. */
  predicate Calm(c: Conn, b: nat) {
    c.state !in {CLOSED, TIME_WAIT, FIN_WAIT_2} ==>
      Steady(RttOf(c), b) && c.rto >= 3 && (c.timer <= 48 || c.timer <= c.rto)
  }

  predicate AllCalm(e: Engine, b: nat) {
    forall c <- e.conns :: Calm(c, b)
  }

  /** If this acknowledges outstanding data that was never retransmitted, the clock has been running
      for at most b ticks. */
  ghost predicate Prompt(c: Conn, seg: Segment, b: nat) {
    Acks(c, seg) && c.nrtx == 0 ==> 0 <= c.rto - c.timer <= b
  }

  ghost predicate PromptOp(e: Engine, op: Op, b: nat) {
    op.Segm? ==> var i := FindConn(e.conns, op.seg); i < |e.conns| ==> Prompt(e.conns[i], op.seg, b)
  }

  ghost predicate PromptRun(e: Engine, ops: seq<Op>, host: Addr, tcpMss: u16, b: nat)
    requires Runs(e, ops, host, tcpMss)
    decreases |ops|
  {
    ops == [] || (PromptOp(e, ops[0], b) && PromptRun(Exec(e, ops[0], host, tcpMss).e, ops[1..], host, tcpMss, b))
  }

  /** Over any run of the engine in which acknowledgements come in time, no estimator wraps. */
  lemma {:induction false} RunStaysCalm(e: Engine, ops: seq<Op>, host: Addr, tcpMss: u16, b: nat)
    requires Runs(e, ops, host, tcpMss) && AllCalm(e, b) && b <= 31 && PromptRun(e, ops, host, tcpMss, b)
    ensures AllCalm(After(e, ops, host, tcpMss), b)
    decreases |ops|
  {
    if ops != [] {
      ExecStaysCalm(e, ops[0], host, tcpMss, b);
      RunStaysCalm(Exec(e, ops[0], host, tcpMss).e, ops[1..], host, tcpMss, b);
    }
  }

  lemma ExecStaysCalm(e: Engine, op: Op, host: Addr, tcpMss: u16, b: nat)
    requires Applicable(e, op, tcpMss) && AllCalm(e, b) && b <= 31 && PromptOp(e, op, b)
    ensures AllCalm(Exec(e, op, host, tcpMss).e, b)
  {
    match op
    case Segm(seg, area, calls) =>
      var i := FindConn(e.conns, seg);
      if i < |e.conns| {
        ArriveStaysCalm(e.conns[i], e.slen, seg, area, calls, tcpMss, b);
      } else {
        var k := Slot(e.conns, |e.conns|);
        if k >= 0 {
          FreshIsSteady(e.conns[k], seg, e.iss, area, seg.src, 0, 0, tcpMss, b);
        }
      }
    case Tick(i, area, calls) => TimerStaysCalm(e.conns[i], area, calls, b);
    case PollConn(i, area, calls) => CallStaysCalm(e.conns[i], {POLL}, e.slen, [], area, calls, b);
    case Connect(ripaddr, rport) =>
    case Listen(_) =>
    case Unlisten(_) =>
  }

  /** Neither the estimate nor the clock is touched by a callback. */
  lemma CallStaysCalm(c: Conn, flags: set<Flag>, slen: u16, data: seq<byte>, area: seq<byte>, calls: seq<AppCall>,
                      b: nat)
    requires Room(c, area) && Fits(calls, area) && Calm(c, b)
    ensures Calm(CallAndSend(c, flags, slen, data, area, calls).c, b) || c.state in {CLOSED, TIME_WAIT, FIN_WAIT_2}
  {
  }

  lemma TimerStaysCalm(c: Conn, area: seq<byte>, calls: seq<AppCall>, b: nat)
    requires Room(c, area) && Fits(calls, area) && Calm(c, b)
    ensures Calm(Timer(c, area, calls).c, b)
  {
    if c.state == ESTABLISHED {
      CallStaysCalm(c, {POLL}, 0, [], area, calls, b);
    }
  }

  lemma AckStaysCalm(c: Conn, seg: Segment, b: nat)
    requires Calm(c, b) && b <= 31 && Acks(c, seg) && Prompt(c, seg, b)
    ensures Calm(TakeAck(c), b)
  {
    if c.nrtx == 0 && c.state !in {CLOSED, TIME_WAIT, FIN_WAIT_2} {
      StepSteady(RttOf(c), c.rto - c.timer, b);
    }
  }

  lemma ArriveStaysCalm(c: Conn, slen: u16, seg: Segment, area: seq<byte>, calls: seq<AppCall>, tcpMss: u16, b: nat)
    requires Room(c, area) && Fits(calls, area) && tcpMss <= |area| && Calm(c, b) && b <= 31 && Prompt(c, seg, b)
    ensures Calm(Arrive(c, slen, seg, area, calls, tcpMss).c, b)
  {
    if !seg.flags.rst && !OutOfOrder(c, seg) {
      var acked := Acks(c, seg);
      if acked {
        AckStaysCalm(c, seg, b);
      }
      StateStaysCalm(if acked then TakeAck(c) else c, acked, slen, seg, area, calls, tcpMss, b);
    }
  }

  /** d has the estimate and the clock of c, and could estimate only if c could. */
  predicate SameClock(c: Conn, d: Conn) {
    d.state !in {CLOSED, TIME_WAIT, FIN_WAIT_2} ==>
      RttOf(d) == RttOf(c) && d.timer == c.timer && c.state !in {CLOSED, TIME_WAIT, FIN_WAIT_2}
  }

  lemma CallKeepsClock(c: Conn, flags: set<Flag>, slen: u16, data: seq<byte>, area: seq<byte>, calls: seq<AppCall>)
    requires Room(c, area) && Fits(calls, area) && c.state == ESTABLISHED
    ensures SameClock(c, CallAndSend(c, flags, slen, data, area, calls).c)
  {
  }

  /** The switch touches neither the estimate nor, in a state that can estimate, the clock. */
  lemma StateStaysCalm(c: Conn, acked: bool, slen: u16, seg: Segment, area: seq<byte>, calls: seq<AppCall>, tcpMss: u16,
                       b: nat)
    requires Room(c, area) && Fits(calls, area) && tcpMss <= |area| && Calm(c, b)
    ensures Calm(InState(c, acked, slen, seg, area, calls, tcpMss).c, b)
  {
    var n := DataLen(seg);
    match c.state
    case SYN_RCVD =>
      if acked {
        var c1 := Enter(c, ESTABLISHED).(len := 0);
        CallKeepsClock(if n > 0 then Received(c1, n) else c1, if n > 0 then {CONNECTED, NEWDATA} else {CONNECTED}, 0,
                       if n > 0 then Shown(area, 0, n) else [], area, calls);
      }
    case SYN_SENT =>
      if acked && seg.flags == SYN_ACK {
        var c1 := Synchronized(c, seg, area, tcpMss);
        CallKeepsClock(c1, {CONNECTED, NEWDATA}, 0, [], area, calls);
      }
    case ESTABLISHED => EstablishedKeepsClock(c, acked, slen, seg, area, calls);
    case FIN_WAIT_1 =>
    case FIN_WAIT_2 =>
    case CLOSED =>
    case CLOSING =>
    case TIME_WAIT =>
    case LAST_ACK =>
  }

  lemma EstablishedKeepsClock(c: Conn, acked: bool, slen: u16, seg: Segment, area: seq<byte>, calls: seq<AppCall>)
    requires Room(c, area) && Fits(calls, area) && c.state == ESTABLISHED
    ensures SameClock(c, InEstablished(c, acked, slen, seg, area, calls).c)
  {
    var n := Accepted(c, seg);
    if !(seg.flags.fin && !c.stopped) && (n > 0 || acked) {
      CallKeepsClock(Absorbed(c, seg), (if acked then {ACKDATA} else {}) + (if n > 0 then {NEWDATA} else {}), 0,
                     if n > 0 then Shown(area, DataFrom(seg), n) else [], area, calls);
    }
  }

  // ----- a run in which the estimator wraps -----

  /** The one connection of the run below: one byte outstanding, with this clock. */
  function Probe(rcvNxt: Quad, sndNxt: Quad, timer: byte, nrtx: byte): Conn {
    Conn(Addr(1, 1), 80, 80, rcvNxt, sndNxt, 1, 40, 40, 0, 3, RTO, ESTABLISHED, false, timer, nrtx)
  }

  const NO_FLAGS := Ctl(false, false, false, false, false, false)

  /** A segment of the peer, to port 80. */
  function FromPeer(host: Addr, seqno: Quad, ackno: Quad, flags: Ctl, doff: nibble, body: seq<byte>): Segment
    requires |body| < 0x100
  {
    Segment(Addr(1, 1), host, 80, 80, seqno, ackno, doff, flags, 40, 0, 40 + |body|, body)
  }

  lemma {:induction false} RunsSnoc(e: Engine, ops: seq<Op>, op: Op, host: Addr, tcpMss: u16)
    requires Runs(e, ops, host, tcpMss)
    requires var e1 := After(e, ops, host, tcpMss);
      Applicable(e1, op, tcpMss) && StopHarmless(Exec(e1, op, host, tcpMss).call, CallsOf(op))
    ensures Runs(e, ops + [op], host, tcpMss)
    ensures After(e, ops + [op], host, tcpMss) == Exec(After(e, ops, host, tcpMss), op, host, tcpMss).e
    decreases |ops|
  {
    if ops == [] {
      assert ops + [op] == [op];
      assert [op][1..] == [];
    } else {
      RunsSnoc(Exec(e, ops[0], host, tcpMss).e, ops[1..], op, host, tcpMss);
      assert (ops + [op])[0] == ops[0] && (ops + [op])[1..] == ops[1..] + [op];
    }
  }

  /** The engine with the one connection. */
  predicate Probed(e: Engine, rcvNxt: Quad, sndNxt: Quad, timer: byte, nrtx: byte) {
    e.conns == [Probe(rcvNxt, sndNxt, timer, nrtx)]
  }

  lemma TickProbe(e: Engine, rcvNxt: Quad, sndNxt: Quad, timer: byte, nrtx: byte, area: seq<byte>, host: Addr)
    requires 44 <= |area| < 0xff00 && Probed(e, rcvNxt, sndNxt, timer, nrtx) && nrtx < 8
    ensures var op := Tick(0, area, []);
      && Applicable(e, op, 40) && StopHarmless(Exec(e, op, host, 40).call, [])
      && Probed(Exec(e, op, host, 40).e, rcvNxt, sndNxt, if timer > 0 then timer - 1 else Backoff(nrtx),
                if timer > 0 then nrtx else nrtx + 1)
  {
    TimerProbe(rcvNxt, sndNxt, timer, nrtx, area);
    assert Room(Probe(rcvNxt, sndNxt, timer, nrtx), area) && e.conns[0] == Probe(rcvNxt, sndNxt, timer, nrtx);
  }

  lemma TimerProbe(rcvNxt: Quad, sndNxt: Quad, timer: byte, nrtx: byte, area: seq<byte>)
    requires 44 <= |area| < 0xff00 && nrtx < 8 && Room(Probe(rcvNxt, sndNxt, timer, nrtx), area)
    ensures var s := Timer(Probe(rcvNxt, sndNxt, timer, nrtx), area, []);
      && s.out == Silent
      && s.c == if timer > 0 then Probe(rcvNxt, sndNxt, timer - 1, nrtx)
        else Probe(rcvNxt, sndNxt, Backoff(nrtx), nrtx + 1)
  {
  }

  /** n ticks of a run that leave the clock above zero. */
  lemma {:induction false} TickDown(e: Engine, ops: seq<Op>, rcvNxt: Quad, sndNxt: Quad, timer: byte, nrtx: byte,
                                    n: nat, area: seq<byte>, host: Addr)
    returns (ops': seq<Op>)
    requires 44 <= |area| < 0xff00 && Runs(e, ops, host, 40) &&
      Probed(After(e, ops, host, 40), rcvNxt, sndNxt, timer, nrtx) && nrtx < 8 && n <= timer
    ensures Runs(e, ops', host, 40) && Probed(After(e, ops', host, 40), rcvNxt, sndNxt, timer - n, nrtx)
    decreases n
  {
    ops' := ops;
    if n > 0 {
      TickProbe(After(e, ops, host, 40), rcvNxt, sndNxt, timer, nrtx, area, host);
      RunsSnoc(e, ops, Tick(0, area, []), host, 40);
      ops' := TickDown(e, ops + [Tick(0, area, [])], rcvNxt, sndNxt, timer - 1, nrtx, n - 1, area, host);
    }
  }

  /** A retransmission: the clock runs out and is set to its backed-off value. */
  lemma Retransmit(e: Engine, ops: seq<Op>, rcvNxt: Quad, sndNxt: Quad, timer: byte, nrtx: byte, area: seq<byte>,
                   host: Addr)
    returns (ops': seq<Op>)
    requires 44 <= |area| < 0xff00 && Runs(e, ops, host, 40) &&
      Probed(After(e, ops, host, 40), rcvNxt, sndNxt, timer, nrtx) && nrtx < 8
    ensures Runs(e, ops', host, 40) && Probed(After(e, ops', host, 40), rcvNxt, sndNxt, Backoff(nrtx), nrtx + 1)
  {
    ops' := TickDown(e, ops, rcvNxt, sndNxt, timer, nrtx, timer, area, host);
    TickProbe(After(e, ops', host, 40), rcvNxt, sndNxt, 0, nrtx, area, host);
    RunsSnoc(e, ops', Tick(0, area, []), host, 40);
    ops' := ops' + [Tick(0, area, [])];
  }

  /** The connection after the handshake, in which the estimator gets the sample 0. */
  function Waiting(q: Quad, iss: Quad): Conn {
    Conn(Addr(1, 1), 80, 80, q, iss, 1, 40, 40, 0, 4, RTO, SYN_RCVD, false, RTO, 0)
  }

  lemma TakeSyn(e: Engine, q: Quad, area: seq<byte>, host: Addr)
    requires 44 <= |area| < 0xff00 && area[0] == 2 && area[1] == 4 && area[2] == 0 && area[3] == 40
    requires |e.conns| == 1 && Is(e.conns[0], CLOSED) && Room(e.conns[0], area) && e.ports == [80]
    ensures var op := Segm(FromPeer(host, q, q, SYN, 6, [2, 4, 0, 40]), area, []);
      && Applicable(e, op, 40) && Exec(e, op, host, 40).call == None
      && Exec(e, op, host, 40).e == e.(conns := [Waiting(Plus(q, 1), e.iss)])
  {
    var seg := FromPeer(host, q, q, SYN, 6, [2, 4, 0, 40]);
    assert FindConn(e.conns, seg) == 1;
    assert Slot(e.conns, 1) == 0;
    assert NextCursor(area, 4, 0) == None;
    assert OptionBytes(6) == 4;
    assert MssOption(6, area) == Some(40);
    assert seg.dport in e.ports;
  }

  lemma TakeAckOfSyn(e: Engine, q: Quad, iss: Quad, area: seq<byte>, host: Addr)
    requires 44 <= |area| < 0xff00 && e.conns == [Waiting(q, iss)]
    ensures var op := Segm(FromPeer(host, q, Plus(iss, 1), ACK, 5, []), area, [Send([7])]);
      && Applicable(e, op, 40) && StopHarmless(Exec(e, op, host, 40).call, op.calls)
      && Probed(Exec(e, op, host, 40).e, q, Plus(iss, 1), RTO, 0)
  {
    var seg, c := FromPeer(host, q, Plus(iss, 1), ACK, 5, []), Waiting(q, iss);
    FitsOne(area);
    assert Room(c, area);
    AckOfSyn(q, iss, seg, e.slen, area);
    OnlyConn(e, c, seg, area, [Send([7])], host);
  }

  lemma FitsOne(area: seq<byte>)
    requires |area| >= 1
    ensures Fits([Send([7])], area)
  {
  }

  /** With one connection, a segment for it is taken by it. */
  lemma OnlyConn(e: Engine, c: Conn, seg: Segment, area: seq<byte>, calls: seq<AppCall>, host: Addr)
    requires 44 <= |area| < 0xff00 && e.conns == [c] && Matches(c, seg) && Room(c, area) && Fits(calls, area) &&
      c.state != SYN_SENT
    ensures var op := Segm(seg, area, calls);
      && Applicable(e, op, 40)
      && var s, r := Arrive(c, e.slen, seg, area, calls, 40), Exec(e, op, host, 40);
      r.e.conns == [s.c] && r.call == s.call
  {
    assert e.conns[0] == c && FindConn(e.conns, seg) == 0;
  }

  lemma AckOfSyn(q: Quad, iss: Quad, seg: Segment, slen: u16, area: seq<byte>)
    requires 44 <= |area| < 0xff00 && seg.flags == ACK && DataLen(seg) == 0 && seg.ackno == Plus(iss, 1)
    requires Room(Waiting(q, iss), area) && Fits([Send([7])], area)
    ensures var s := Arrive(Waiting(q, iss), slen, seg, area, [Send([7])], 40);
      s.c == Probe(q, Plus(iss, 1), RTO, 0) && s.call.Some? && (s.out.Emit? ==> |s.out.payload| < 0xff00)
  {
    var c := Waiting(q, iss);
    StepSteady(Rtt(0, 4, RTO), 0, 0);
    assert RttOf(TakeAck(c)) == Rtt(0, 3, 3);
    var c1 := Enter(TakeAck(c), ESTABLISHED).(len := 0);
    SendOne(c1, area);
    assert Arrive(c, slen, seg, area, [Send([7])], 40) == CallAndSend(c1, {CONNECTED}, 0, [], area, [Send([7])]);
  }

  /** The application submits one byte. */
  lemma SendOne(c: Conn, area: seq<byte>)
    requires Room(c, area) && |area| < 0xff00 && c.len == 0 && c.mss == 40 && !c.stopped && Fits([Send([7])], area)
    ensures CallAndSend(c, {CONNECTED}, 0, [], area, [Send([7])]).c == c.(len := 1, nrtx := 0)
  {
    var v := AppView({CONNECTED}, 0, false, area);
    assert [Send([7])][1..] == [];
    assert Run(v, [Send([7])]) == Apply(v, Send([7]));
  }

  /** Data from the peer resets nrtx while the byte is outstanding and the clock stands high. */
  lemma TakeData(e: Engine, q: Quad, sndNxt: Quad, timer: byte, nrtx: byte, area: seq<byte>, host: Addr)
    requires 44 <= |area| < 0xff00 && Probed(e, q, sndNxt, timer, nrtx)
    ensures var op := Segm(FromPeer(host, q, q, NO_FLAGS, 5, [9]), area, []);
      && Applicable(e, op, 40) && StopHarmless(Exec(e, op, host, 40).call, [])
      && Probed(Exec(e, op, host, 40).e, Plus(q, 1), sndNxt, timer, 0)
  {
    var seg, c := FromPeer(host, q, q, NO_FLAGS, 5, [9]), Probe(q, sndNxt, timer, nrtx);
    assert Room(c, area);
    OnlyConn(e, c, seg, area, [], host);
    assert !OutOfOrder(c, seg) && !Acks(c, seg) && Accepted(c, seg) == 1;
  }

  /** A run from the start: listen; SYN; its acknowledgement, on which the application sends one byte;
      eight ticks, which retransmit it twice and set the clock to 6; one byte from the peer. Then the
      acknowledgement of the byte gives the sample -3, and sa becomes 253 where -3 is meant. */
  lemma EstimatorCanWrap(iss: Quad, q: Quad, area: seq<byte>, host: Addr) returns (ops: seq<Op>)
    requires 44 <= |area| < 0xff00 && area[0] == 2 && area[1] == 4 && area[2] == 0 && area[3] == 40
    ensures Runs(Init(1, 1, iss), ops, host, 40)
    ensures |After(Init(1, 1, iss), ops, host, 40).conns| == 1
    ensures var c := After(Init(1, 1, iss), ops, host, 40).conns[0];
      && c.state == ESTABLISHED && c.len == 1 && c.nrtx == 0 && c.timer == 6 && c.rto == 3
      && Ideal(c.sa, c.sv, c.rto - c.timer).0 == -3 && TakeAck(c).sa == 253
  {
    ops := Handshake(iss, q, area, host);
    ops := TwiceThenData(Init(1, 1, iss), ops, Plus(q, 1), Plus(iss, 1), area, host);
    NegativeAck(Plus(Plus(q, 1), 1), Plus(iss, 1));
  }

  /** Two retransmissions, then data from the peer. */
  lemma TwiceThenData(e: Engine, ops: seq<Op>, q: Quad, sndNxt: Quad, area: seq<byte>, host: Addr)
    returns (ops': seq<Op>)
    requires 44 <= |area| < 0xff00 && Runs(e, ops, host, 40) && Probed(After(e, ops, host, 40), q, sndNxt, RTO, 0)
    ensures Runs(e, ops', host, 40) && Probed(After(e, ops', host, 40), Plus(q, 1), sndNxt, 6, 0)
  {
    ops' := Retransmit(e, ops, q, sndNxt, RTO, 0, area, host);
    ops' := Retransmit(e, ops', q, sndNxt, 3, 1, area, host);
    TakeData(After(e, ops', host, 40), q, sndNxt, 6, 2, area, host);
    var data := Segm(FromPeer(host, q, q, NO_FLAGS, 5, [9]), area, []);
    RunsSnoc(e, ops', data, host, 40);
    ops' := ops' + [data];
  }

  lemma Handshake(iss: Quad, q: Quad, area: seq<byte>, host: Addr) returns (ops: seq<Op>)
    requires 44 <= |area| < 0xff00 && area[0] == 2 && area[1] == 4 && area[2] == 0 && area[3] == 40
    ensures Runs(Init(1, 1, iss), ops, host, 40) &&
      Probed(After(Init(1, 1, iss), ops, host, 40), Plus(q, 1), Plus(iss, 1), RTO, 0)
  {
    var e := Init(1, 1, iss);
    ops := Opening(iss, host);
    TakeSyn(After(e, ops, host, 40), q, area, host);
    var syn := Segm(FromPeer(host, q, q, SYN, 6, [2, 4, 0, 40]), area, []);
    RunsSnoc(e, ops, syn, host, 40);
    ops := ops + [syn];
    TakeAckOfSyn(After(e, ops, host, 40), Plus(q, 1), iss, area, host);
    var ack := Segm(FromPeer(host, Plus(q, 1), Plus(iss, 1), ACK, 5, []), area, [Send([7])]);
    RunsSnoc(e, ops, ack, host, 40);
    ops := ops + [ack];
  }

  lemma Opening(iss: Quad, host: Addr) returns (ops: seq<Op>)
    ensures Runs(Init(1, 1, iss), ops, host, 40)
    ensures var e := After(Init(1, 1, iss), ops, host, 40);
      |e.conns| == 1 && Is(e.conns[0], CLOSED) && e.conns[0].len == e.conns[0].mss == e.conns[0].initialmss == 0 &&
        e.ports == [80] && e.iss == iss
  {
    ops := [Listen(80)];
    assert ops[1..] == [];
    assert Update([0], 0, 80) == [80];
    var e := Init(1, 1, iss);
    assert e.ports == [0];
    assert After(e, ops, host, 40) == Exec(e, Listen(80), host, 40).e;
  }

  lemma NegativeAck(rcvNxt: Quad, sndNxt: Quad)
    ensures TakeAck(Probe(rcvNxt, sndNxt, 6, 0)).sa == 253
  {
    var c := Probe(rcvNxt, sndNxt, 6, 0);
    assert RttOf(c) == Rtt(0, 3, RTO) && c.rto - c.timer == -3;
    Fold8(-3);
    assert Estimate(Rtt(0, 3, RTO), -3).sa == U8(-3);
  }
}
