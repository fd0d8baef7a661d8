/** What the engine sends: that new data is acknowledged, what a retransmission carries, and to whom
    an answer goes. The statements are about segments, not about the branches that make them. */
module TcpReplies {
  import opened Bytes
  import opened Tcp
  import opened TcpTable

  // ----- acknowledgements -----

  /** No call takes a flag away without closing or aborting. */
  lemma {:induction false} RunFlags(v: AppView, calls: seq<AppCall>, f: Flag)
    requires Fits(calls, v.area) && (f in v.flags || CLOSE in v.flags || ABORT in v.flags)
    ensures var v' := Run(v, calls); f in v'.flags || CLOSE in v'.flags || ABORT in v'.flags
    decreases |calls|
  {
    if calls != [] {
      RunFlags(Apply(v, calls[0]), calls[1..], f);
    }
  }

  /** A callback that shows new data is answered with an acknowledgement, whatever the application does. */
  lemma NewDataIsAcked(c: Conn, flags: set<Flag>, slen: u16, data: seq<byte>, area: seq<byte>, calls: seq<AppCall>)
    requires Room(c, area) && Fits(calls, area) && NEWDATA in flags
    ensures var s := CallAndSend(c, flags, slen, data, area, calls);
      s.c.rcvNxt == c.rcvNxt && s.out.Emit? && s.out.flags.ack
  {
    RunFlags(AppView(flags, slen, c.stopped, area), calls, NEWDATA);
  }

  /** A segment that carries something, but not what is due next, is answered with what is due; the
      connection is unchanged and the application does not hear of it. The answer to our SYN is exempt. */
  lemma LateIsAcked(c: Conn, slen: u16, seg: Segment, area: seq<byte>, calls: seq<AppCall>, host: Addr, tcpMss: u16)
    requires Room(c, area) && Fits(calls, area) && tcpMss <= |area| < 0xff00 && !seg.flags.rst
    requires (DataLen(seg) > 0 || seg.flags.syn || seg.flags.fin) && seg.seqno != c.rcvNxt
    requires c.state != SYN_SENT || seg.flags != SYN_ACK
    ensures var s := Arrive(c, slen, seg, area, calls, tcpMss);
      && s.c == c && s.call == None && s.slen == slen
      && var out := OnWire(s, Some(seg), host, tcpMss);
      && out.Some? && out.value.flags == Ctl(false, false, false, false, true, false) && DataLen(out.value) == 0
      && out.value.ackno == c.rcvNxt && out.value.seqno == c.sndNxt
  {
  }

  /** Whatever moves the sequence number expected next is acknowledged at once, with the new number, but
      for one case: data that comes with the acknowledgement of our FIN in FIN_WAIT_1. */
  lemma AdvanceIsAcked(c: Conn, slen: u16, seg: Segment, area: seq<byte>, calls: seq<AppCall>, host: Addr, tcpMss: u16)
    requires Room(c, area) && Fits(calls, area) && tcpMss <= |area| < 0xff00 && !seg.flags.rst
    ensures var s := Arrive(c, slen, seg, area, calls, tcpMss);
      s.c.rcvNxt != c.rcvNxt ==>
        if c.state == FIN_WAIT_1 && !seg.flags.fin && Acks(c, seg) then s.out == Silent
        else
          var out := OnWire(s, Some(seg), host, tcpMss);
          out.Some? && out.value.flags.ack && out.value.ackno == s.c.rcvNxt
  {
    if !OutOfOrder(c, seg) {
      var acked := Acks(c, seg);
      var c1 := if acked then TakeAck(c) else c;
      StateAcks(c1, acked, slen, seg, area, calls, tcpMss);
    }
  }

  lemma StateAcks(c: Conn, acked: bool, slen: u16, seg: Segment, area: seq<byte>, calls: seq<AppCall>, tcpMss: u16)
    requires Room(c, area) && Fits(calls, area) && tcpMss <= |area|
    ensures var s := InState(c, acked, slen, seg, area, calls, tcpMss);
      s.c.rcvNxt != c.rcvNxt ==>
        if c.state == FIN_WAIT_1 && !seg.flags.fin && acked then s.out == Silent
        else s.out.Emit? && s.out.flags.ack
  {
    var n := DataLen(seg);
    if c.state == SYN_RCVD && acked && n > 0 {
      NewDataIsAcked(Received(Enter(c, ESTABLISHED).(len := 0), n), {CONNECTED, NEWDATA}, 0, Shown(area, 0, n), area,
                     calls);
    } else if c.state == SYN_RCVD && acked {
      CallKeepsRcvNxt(Enter(c, ESTABLISHED).(len := 0), {CONNECTED}, 0, [], area, calls);
    } else if c.state == SYN_SENT && acked && seg.flags == SYN_ACK {
      NewDataIsAcked(Synchronized(c, seg, area, tcpMss), {CONNECTED, NEWDATA}, 0, [], area, calls);
    } else if c.state == ESTABLISHED {
      EstablishedAcks(c, acked, slen, seg, area, calls);
    }
  }

  lemma CallKeepsRcvNxt(c: Conn, flags: set<Flag>, slen: u16, data: seq<byte>, area: seq<byte>, calls: seq<AppCall>)
    requires Room(c, area) && Fits(calls, area)
    ensures CallAndSend(c, flags, slen, data, area, calls).c.rcvNxt == c.rcvNxt
  {
  }

  lemma EstablishedAcks(c: Conn, acked: bool, slen: u16, seg: Segment, area: seq<byte>, calls: seq<AppCall>)
    requires Room(c, area) && Fits(calls, area)
    ensures var s := InEstablished(c, acked, slen, seg, area, calls);
      s.c.rcvNxt != c.rcvNxt ==> s.out.Emit? && s.out.flags.ack
  {
    if !(seg.flags.fin && !c.stopped) {
      var n := Accepted(c, seg);
      var flags := (if acked then {ACKDATA} else {}) + (if n > 0 then {NEWDATA} else {});
      var data := if n > 0 then Shown(area, DataFrom(seg), n) else [];
      if n > 0 {
        NewDataIsAcked(Absorbed(c, seg), flags, 0, data, area, calls);
      } else {
        CallKeepsRcvNxt(Absorbed(c, seg), flags, 0, data, area, calls);
      }
    }
  }

  /** In-order data after our own FIN goes unanswered exactly if it comes with the acknowledgement of
      that FIN, and without the peer's. */
  lemma DataAfterFin(c: Conn, slen: u16, seg: Segment, area: seq<byte>, calls: seq<AppCall>, host: Addr, tcpMss: u16)
    requires Room(c, area) && Fits(calls, area) && tcpMss <= |area| < 0xff00 && !seg.flags.rst
    requires c.state in {FIN_WAIT_1, FIN_WAIT_2} && DataLen(seg) > 0 && seg.seqno == c.rcvNxt
    ensures var s := Arrive(c, slen, seg, area, calls, tcpMss);
      && s.c.rcvNxt == Plus(c.rcvNxt, DataLen(seg) + if seg.flags.fin then 1 else 0)
      && (OnWire(s, Some(seg), host, tcpMss) == None <==>
            c.state == FIN_WAIT_1 && !seg.flags.fin &&
            seg.flags.ack && c.len > 0 && seg.ackno == Plus(c.sndNxt, c.len))
  {
    PlusPlus(c.rcvNxt, DataLen(seg), 1);
  }

  // ----- retransmissions -----

  /** The sequence numbers a segment takes up. */
  function Units(seg: Segment): nat {
    DataLen(seg) + (if seg.flags.syn then 1 else 0) + (if seg.flags.fin then 1 else 0)
  }

  /** When the timer of a connection runs out, other than for good, everything outstanding is sent again:
      a segment that starts at the first unacknowledged number and takes up as many as are outstanding. */
  lemma RetransmitsAll(c: Conn, area: seq<byte>, calls: seq<AppCall>, host: Addr, tcpMss: u16)
    requires Room(c, area) && Fits(calls, area) && tcpMss <= |area| < 0xff00
    requires c.timer == 0 && c.len == 1 && !c.stopped
    requires c.nrtx < if c.state in {SYN_SENT, SYN_RCVD} then 5 else 8
    requires c.state in {SYN_SENT, SYN_RCVD, FIN_WAIT_1, CLOSING, LAST_ACK}
    ensures var s := Timer(c, area, calls);
      && s.c == c.(timer := s.c.timer, nrtx := c.nrtx + 1) && s.call == None
      && var out := OnWire(s, None, host, tcpMss);
      && out.Some? && out.value.seqno == c.sndNxt && Units(out.value) == c.len && !out.value.flags.rst
      && out.value.flags.syn == (c.state in {SYN_SENT, SYN_RCVD})
      && out.value.flags.fin == (c.state in {FIN_WAIT_1, CLOSING, LAST_ACK})
      && out.value.flags.ack == (c.state != SYN_SENT)
      && (out.value.flags.ack ==> out.value.ackno == c.rcvNxt)
  {
  }

  /** The same for an established connection, by what the application's calls leave in the buffer. */
  lemma AsksForData(c: Conn, area: seq<byte>, calls: seq<AppCall>, host: Addr, tcpMss: u16)
    requires Room(c, area) && Fits(calls, area) && tcpMss <= |area| < 0xff00
    requires c.timer == 0 && c.len > 0 && c.nrtx < 8 && c.state == ESTABLISHED
    ensures var s := Timer(c, area, calls);
      && s.call == Some(Callback(s.call.value.c, {REXMIT}, [])) && s.c.len == c.len && s.c.nrtx == c.nrtx + 1
      && var v := Run(AppView({REXMIT}, 0, c.stopped, area), calls);
      && var out := OnWire(s, None, host, tcpMss);
      && (v.slen > 0 ==> out.Some? && out.value.seqno == c.sndNxt && Units(out.value) == c.len &&
                         out.value.body == v.area[..c.len] && out.value.ackno == c.rcvNxt)
      && (v.slen == 0 ==> out.Some? ==> Units(out.value) == 0)
  {
  }

  /** After the last retransmission the peer gets a RST and the application is told. */
  lemma GivesUpWithReset(c: Conn, area: seq<byte>, calls: seq<AppCall>, host: Addr, tcpMss: u16)
    requires Room(c, area) && Fits(calls, area) && tcpMss <= |area| < 0xff00
    requires c.timer == 0 && c.len > 0 && !c.stopped && c.state !in {CLOSED, TIME_WAIT, FIN_WAIT_2}
    requires c.nrtx == if c.state in {SYN_SENT, SYN_RCVD} then 5 else 8
    ensures var s := Timer(c, area, calls);
      && s.c.state == CLOSED && s.call.Some? && s.call.value.flags == {TIMEDOUT}
      && var out := OnWire(s, None, host, tcpMss);
      && out.Some? && out.value.flags.rst && out.value.seqno == c.sndNxt && Units(out.value) == 0
  {
  }

  // ----- to whom -----

  /** Every answer goes back where the segment came from. */
  lemma AnswersSender(e: Engine, seg: Segment, area: seq<byte>, calls: seq<AppCall>, host: Addr, tcpMss: u16)
    requires RoomAll(e.conns, area) && Fits(calls, area) && tcpMss <= |area| && 44 <= |area|
    ensures var out := Input(e, seg, area, calls, host, tcpMss).out;
      out.Some? ==>
        && out.value.src == host && out.value.dst == seg.src
        && out.value.sport == seg.dport && out.value.dport == seg.sport
        && !(seg.flags.rst)
  {
    var i := FindConn(e.conns, seg);
    if i < |e.conns| {
      KeepsEndpoints(e.conns[i], e.slen, seg, area, calls, tcpMss);
    }
  }

  lemma KeepsEndpoints(c: Conn, slen: u16, seg: Segment, area: seq<byte>, calls: seq<AppCall>, tcpMss: u16)
    requires Room(c, area) && Fits(calls, area) && tcpMss <= |area|
    ensures var s := Arrive(c, slen, seg, area, calls, tcpMss);
      && SameKey(c, s.c) && (seg.flags.rst ==> s.out == Silent)
  {
    if !seg.flags.rst && !OutOfOrder(c, seg) {
      var acked := Acks(c, seg);
      StateKeepsKey(if acked then TakeAck(c) else c, acked, slen, seg, area, calls, tcpMss);
    }
  }

  lemma CallKeepsKey(c: Conn, flags: set<Flag>, slen: u16, data: seq<byte>, area: seq<byte>, calls: seq<AppCall>)
    requires Room(c, area) && Fits(calls, area)
    ensures SameKey(c, CallAndSend(c, flags, slen, data, area, calls).c)
  {
  }

  lemma EstablishedKeepsKey(c: Conn, acked: bool, slen: u16, seg: Segment, area: seq<byte>, calls: seq<AppCall>)
    requires Room(c, area) && Fits(calls, area)
    ensures SameKey(c, InEstablished(c, acked, slen, seg, area, calls).c)
  {
    var n := Accepted(c, seg);
    CallKeepsKey(Absorbed(c, seg), (if acked then {ACKDATA} else {}) + (if n > 0 then {NEWDATA} else {}), 0,
                 if n > 0 then Shown(area, DataFrom(seg), n) else [], area, calls);
  }

  lemma StateKeepsKey(c: Conn, acked: bool, slen: u16, seg: Segment, area: seq<byte>, calls: seq<AppCall>, tcpMss: u16)
    requires Room(c, area) && Fits(calls, area) && tcpMss <= |area|
    ensures SameKey(c, InState(c, acked, slen, seg, area, calls, tcpMss).c)
  {
    var n := DataLen(seg);
    if c.state == SYN_RCVD {
      var c1 := Enter(c, ESTABLISHED).(len := 0);
      CallKeepsKey(if n > 0 then Received(c1, n) else c1, if n > 0 then {CONNECTED, NEWDATA} else {CONNECTED}, 0,
                   if n > 0 then Shown(area, 0, n) else [], area, calls);
    } else if c.state == SYN_SENT {
      CallKeepsKey(Synchronized(c, seg, area, tcpMss), {CONNECTED, NEWDATA}, 0, [], area, calls);
    } else if c.state == ESTABLISHED {
      EstablishedKeepsKey(c, acked, slen, seg, area, calls);
    }
  }

  /** The two ends of one connection, on hosts with the given addresses. */
  predicate Mirrored(c: Conn, hostC: Addr, d: Conn, hostD: Addr) {
    c.ripaddr == hostD && d.ripaddr == hostC && c.rport == d.lport && d.rport == c.lport
  }

  /** What one end of a connection sends is taken for the other end, and for no connection else. */
  lemma ReachesOtherEnd(c: Conn, d: Conn, hostC: Addr, hostD: Addr, tcpMss: u16, flags: Ctl, syn: bool,
                        payload: seq<byte>)
    requires |payload| < 0xff00 && c.ripaddr == hostD
    ensures var seg := Compose(c, hostC, tcpMss, flags, syn, payload);
      && seg.dst == hostD
      && (Matches(d, seg) <==> Mirrored(c, hostC, d, hostD) && (d.state != CLOSED || d.stopped))
  {
  }

  /** A RST turned round comes back to the connection that sent the segment, and closes it. */
  lemma ResetComesBack(c: Conn, hostC: Addr, hostD: Addr, tcpMss: u16, flags: Ctl, syn: bool, payload: seq<byte>,
                       slen: u16, area: seq<byte>, calls: seq<AppCall>)
    requires |payload| < 0xff00 && c.ripaddr == hostD && !Is(c, CLOSED)
    requires Room(c, area) && Fits(calls, area) && tcpMss <= |area|
    ensures var r := ResetOf(Compose(c, hostC, tcpMss, flags, syn, payload), hostD);
      && Matches(c, r) && r.dst == hostC && r.flags.rst && r.flags.ack && DataLen(r) == 0
      && r.seqno == c.rcvNxt && r.ackno == Plus(c.sndNxt, 1) && r.wnd == (if c.stopped then 0 else tcpMss)
      && var s := Arrive(c, slen, r, area, calls, tcpMss);
      && s.c.state == CLOSED && s.out == Silent && s.call.Some? && s.call.value.flags == {ABORT}
  {
  }

  // ----- what the application hears -----

  /** When a segment that is due calls the application, and with which flags: in ESTABLISHED, */
  lemma HeardEstablished(c: Conn, slen: u16, seg: Segment, area: seq<byte>, calls: seq<AppCall>, tcpMss: u16)
    requires Room(c, area) && Fits(calls, area) && tcpMss <= |area| && c.state == ESTABLISHED
    requires !seg.flags.rst && ((DataLen(seg) > 0 || seg.flags.syn || seg.flags.fin) ==> seg.seqno == c.rcvNxt)
    ensures var s := Arrive(c, slen, seg, area, calls, tcpMss);
      var n := if c.stopped then 0 else Minus16(DataLen(seg), if seg.flags.urg then seg.urgp else 0);
      if seg.flags.fin && !c.stopped then
        if c.len > 0 && !Acks(c, seg) then s == Step(c, slen, Silent, None)
        else
          s.call.Some? && CLOSE in s.call.value.flags && s.call.value.flags <= {CLOSE, ACKDATA, NEWDATA}
          && (ACKDATA in s.call.value.flags <==> Acks(c, seg)) && (NEWDATA in s.call.value.flags <==> DataLen(seg) > 0)
      else
        && (s.call.Some? <==> Acks(c, seg) || n > 0)
        && (s.call.Some? ==>
              s.call.value.flags <= {ACKDATA, NEWDATA}
              && (ACKDATA in s.call.value.flags <==> Acks(c, seg)) && (NEWDATA in s.call.value.flags <==> n > 0))
  {
  }

  /** and in the other states. */
  lemma HeardElsewhere(c: Conn, slen: u16, seg: Segment, area: seq<byte>, calls: seq<AppCall>, tcpMss: u16)
    requires Room(c, area) && Fits(calls, area) && tcpMss <= |area| && c.state != ESTABLISHED
    ensures var s := Arrive(c, slen, seg, area, calls, tcpMss);
      var flags := if s.call.Some? then s.call.value.flags else {};
      if seg.flags.rst then flags == {ABORT}
      else if OutOfOrder(c, seg) then s.call == None
      else
        && (c.state == SYN_RCVD && Acks(c, seg) ==>
            flags == if DataLen(seg) > 0 then {CONNECTED, NEWDATA} else {CONNECTED})
        && (c.state == SYN_SENT ==> flags == if Acks(c, seg) &&
            seg.flags == SYN_ACK then {CONNECTED, NEWDATA} else {ABORT})
        && (c.state in {FIN_WAIT_1, FIN_WAIT_2} && seg.flags.fin ==> flags == {CLOSE})
        && (c.state == LAST_ACK && Acks(c, seg) ==> flags == {CLOSE})
        && (s.call == None <==>
              || c.state in {CLOSED, CLOSING, TIME_WAIT} || (c.state in {FIN_WAIT_1, FIN_WAIT_2} && !seg.flags.fin)
              || (c.state in {SYN_RCVD, LAST_ACK} && !Acks(c, seg)))
  {
  }

  /** A tick or a poll calls an idle established connection with the flag POLL, and no other that is idle. */
  lemma HeardIdle(c: Conn, slen: u16, area: seq<byte>, calls: seq<AppCall>)
    requires Room(c, area) && Fits(calls, area) && c.len == 0
    ensures var s, t := Timer(c, area, calls), Poll(c, slen, area, calls);
      if c.state == ESTABLISHED then
        s.call == Some(Callback(c, {POLL}, [])) && t.call == Some(Callback(c, {POLL}, []))
      else s.call == None && t.call == None && s.out == Silent && t.out == Silent
  {
  }

  // ----- windows -----

  /** The window that is announced: the own segment size, or 0 while the connection is stopped. */
  lemma Announces(s: Step, seg: Option<Segment>, host: Addr, tcpMss: u16)
    requires s.out.Emit? && |s.out.payload| < 0xff00
    ensures var out := OnWire(s, seg, host, tcpMss);
      out.Some? && out.value.wnd == (if s.c.stopped then 0 else tcpMss) && out.value.urgp == 0
  {
  }

  /** After an arrival in ESTABLISHED no more is sent at once than the peer's window, unless that is 0,
      nor than the segment size agreed on. */
  lemma KeepsWindow(c: Conn, slen: u16, seg: Segment, area: seq<byte>, calls: seq<AppCall>, tcpMss: u16)
    requires Room(c, area) && Fits(calls, area) && tcpMss <= |area| && c.state == ESTABLISHED && !seg.flags.rst
    requires c.len == 0 || Acks(c, seg)
    ensures var s := Arrive(c, slen, seg, area, calls, tcpMss);
      s.out.Emit? ==> |s.out.payload| <= c.initialmss && (seg.wnd > 0 ==> |s.out.payload| <= seg.wnd)
  {
    if !OutOfOrder(c, seg) {
      var acked := Acks(c, seg);
      var c1 := if acked then TakeAck(c) else c;
      var n := Accepted(c1, seg);
      NewChunkFits(Absorbed(c1, seg), (if acked then {ACKDATA} else {}) + (if n > 0 then {NEWDATA} else {}), 0,
                   if n > 0 then Shown(area, DataFrom(seg), n) else [], area, calls);
    }
  }

  lemma NewChunkFits(c: Conn, flags: set<Flag>, slen: u16, data: seq<byte>, area: seq<byte>, calls: seq<AppCall>)
    requires Room(c, area) && Fits(calls, area) && c.len == 0
    ensures var s := CallAndSend(c, flags, slen, data, area, calls); s.out.Emit? ==> |s.out.payload| <= c.mss
  {
  }

  // ----- urgent data -----

  /** Urgent data is skipped, and not acknowledged: what is acknowledged of a segment that is due is all of
      its data exactly if it has no urgent pointer, or that is 0. */
  lemma UrgentUnacknowledged(c: Conn, slen: u16, seg: Segment, area: seq<byte>, calls: seq<AppCall>, tcpMss: u16)
    requires Room(c, area) && Fits(calls, area) && tcpMss <= |area| && Is(c, ESTABLISHED)
    requires !seg.flags.rst && !seg.flags.fin && seg.seqno == c.rcvNxt
    ensures Arrive(c, slen, seg, area, calls, tcpMss).c.rcvNxt == Plus(c.rcvNxt, DataLen(seg)) <==>
      !seg.flags.urg || seg.urgp == 0
  {
    var c1 := if Acks(c, seg) then TakeAck(c) else c;
    var n := Accepted(c1, seg);
    PlusZero(c.rcvNxt);
    AbsorbedCall(c1, Acks(c, seg), slen, seg, area, calls);
    if Plus(c.rcvNxt, n) == Plus(c.rcvNxt, DataLen(seg)) {
      PlusInjective(c.rcvNxt, n, DataLen(seg));
    }
  }

  lemma AbsorbedCall(c: Conn, acked: bool, slen: u16, seg: Segment, area: seq<byte>, calls: seq<AppCall>)
    requires Room(c, area) && Fits(calls, area) && !seg.flags.fin
    ensures InEstablished(c, acked, slen, seg, area, calls).c.rcvNxt ==
      if Accepted(c, seg) > 0 then Plus(c.rcvNxt, Accepted(c, seg)) else c.rcvNxt
  {
  }

  /** What is skipped is not shown: the application gets the data behind the urgent pointer. */
  lemma UrgentSkipped(c: Conn, slen: u16, seg: Segment, area: seq<byte>, calls: seq<AppCall>, tcpMss: u16)
    requires Room(c, area) && Fits(calls, area) && tcpMss <= |area| && Is(c, ESTABLISHED)
    requires !seg.flags.rst && !seg.flags.fin && seg.seqno == c.rcvNxt && seg.doff == 5
    requires seg.len == 40 + |seg.body| && seg.body <= area && seg.flags.urg && seg.urgp < |seg.body|
    ensures var s := Arrive(c, slen, seg, area, calls, tcpMss);
      && s.call.Some? && s.call.value.data == seg.body[seg.urgp..]
      && s.c.rcvNxt == Plus(c.rcvNxt, |seg.body| - seg.urgp)
  {
    assert Shown(area, seg.urgp, |seg.body| - seg.urgp) == seg.body[seg.urgp..];
  }

  /** Data that comes with the acknowledgement of our SYN|ACK is shown with the news that the connection is open. */
  lemma DataWithAck(c: Conn, slen: u16, seg: Segment, area: seq<byte>, calls: seq<AppCall>, tcpMss: u16)
    requires Room(c, area) && Fits(calls, area) && tcpMss <= |area| && Is(c, SYN_RCVD) && Acks(c, seg)
    requires !seg.flags.rst && seg.seqno == c.rcvNxt && seg.doff == 5
    requires seg.len == 40 + |seg.body| && seg.body != [] && seg.body <= area
    ensures var s := Arrive(c, slen, seg, area, calls, tcpMss);
      && s.call.Some? && s.call.value.flags == {CONNECTED, NEWDATA} && s.call.value.data == seg.body
      && s.c.rcvNxt == Plus(c.rcvNxt, |seg.body|)
  {
    assert Shown(area, 0, |seg.body|) == seg.body;
  }

  // ----- the peer's FIN -----

  /** Data that comes with the peer's FIN is shown, and both are acknowledged: all of them exactly if the
      length does not wrap, which is at 65,535. */
  lemma FinWithData(c: Conn, slen: u16, seg: Segment, area: seq<byte>, calls: seq<AppCall>, tcpMss: u16)
    requires Room(c, area) && Fits(calls, area) && tcpMss <= |area| && Is(c, ESTABLISHED) && c.len == 0
    requires seg.flags.fin && !seg.flags.rst && seg.seqno == c.rcvNxt
    ensures var s := Arrive(c, slen, seg, area, calls, tcpMss);
      && Is(s.c, LAST_ACK) && s.c.len == 1 && s.c.nrtx == 0 && s.out == Emit(FIN_ACK, false, [])
      && (s.c.rcvNxt == Plus(c.rcvNxt, DataLen(seg) + 1) <==> DataLen(seg) != 0xffff)
      && (seg.doff == 5 && seg.len == 40 + |seg.body| && seg.body <= area ==>
            s.call.Some? && s.call.value.data == seg.body)
  {
    PlusZero(c.rcvNxt);
    if Plus(c.rcvNxt, 0) == Plus(c.rcvNxt, 0x1_0000) {
      PlusInjective(c.rcvNxt, 0, 0x1_0000);
    }
    if seg.doff == 5 && seg.len == 40 + |seg.body| && seg.body <= area && |seg.body| > 0 {
      assert Shown(area, 0, |seg.body|) == seg.body;
    }
  }

  // ----- what leaves a connection as it is -----

  /** Segments that are due, but bring a connection no further. */
  lemma BringsNothing(c: Conn, slen: u16, seg: Segment, area: seq<byte>, calls: seq<AppCall>, tcpMss: u16)
    requires Room(c, area) && Fits(calls, area) && tcpMss <= |area| && !seg.flags.rst && !OutOfOrder(c, seg)
    requires !Acks(c, seg)
    requires c.state in {CLOSED, SYN_RCVD, CLOSING, LAST_ACK} ||
      (c.state in {FIN_WAIT_1, FIN_WAIT_2} && !seg.flags.fin && DataLen(seg) == 0)
    ensures Arrive(c, slen, seg, area, calls, tcpMss) == Step(c, slen, Silent, None)
  {
  }

  /** An established connection that is told nothing new only takes the window. */
  lemma OnlyWindow(c: Conn, slen: u16, seg: Segment, area: seq<byte>, calls: seq<AppCall>, tcpMss: u16)
    requires Room(c, area) && Fits(calls, area) && tcpMss <= |area| && Is(c, ESTABLISHED)
    requires !seg.flags.rst && !Acks(c, seg) && DataLen(seg) == 0 && !seg.flags.fin && !seg.flags.syn && !seg.flags.urg
    ensures Arrive(c, slen, seg, area, calls, tcpMss) ==
      Step(c.(mss := if 0 < seg.wnd <= c.initialmss then seg.wnd else c.initialmss), slen, Silent, None)
  {
  }

  /** TIME_WAIT acknowledges whatever comes, and stays. */
  lemma TimeWaitAcks(c: Conn, slen: u16, seg: Segment, area: seq<byte>, calls: seq<AppCall>, host: Addr, tcpMss: u16)
    requires Room(c, area) && Fits(calls, area) && tcpMss <= |area| < 0xff00 && !seg.flags.rst
    requires c.state == TIME_WAIT && c.len == 0
    ensures var s := Arrive(c, slen, seg, area, calls, tcpMss);
      && s.c == c && s.call == None
      && var out := OnWire(s, Some(seg), host, tcpMss);
      && out.Some? && Units(out.value) == 0 && out.value.flags.ack && out.value.ackno == c.rcvNxt
  {
  }

  /** Whoever enters TIME_WAIT begins to wait. */
  lemma WaitsFromStart(c: Conn, slen: u16, seg: Segment, area: seq<byte>, calls: seq<AppCall>, tcpMss: u16)
    requires Room(c, area) && Fits(calls, area) && tcpMss <= |area| && c.state != TIME_WAIT
    ensures var s := Arrive(c, slen, seg, area, calls, tcpMss);
      s.c.state == TIME_WAIT ==>
        s.c.timer == 0 && (if c.state == CLOSING then Acks(c, seg)
                           else seg.flags.fin && (c.state == FIN_WAIT_2 || (c.state == FIN_WAIT_1 && Acks(c, seg))))
  {
    if !seg.flags.rst && !OutOfOrder(c, seg) && c.state == ESTABLISHED {
      NoTimeWait(if Acks(c, seg) then TakeAck(c) else c, Acks(c, seg), slen, seg, area, calls);
    }
  }

  lemma NoTimeWait(c: Conn, acked: bool, slen: u16, seg: Segment, area: seq<byte>, calls: seq<AppCall>)
    requires Room(c, area) && Fits(calls, area) && c.state == ESTABLISHED
    ensures InEstablished(c, acked, slen, seg, area, calls).c.state in {ESTABLISHED, CLOSED, FIN_WAIT_1, LAST_ACK}
  {
  }

  // ----- refusals -----

  /** Anything but the SYN|ACK for our SYN ends an active open with a RST that the peer will take for an
      answer to its segment. */
  lemma OpenRefused(c: Conn, slen: u16, seg: Segment, area: seq<byte>, calls: seq<AppCall>, host: Addr, tcpMss: u16)
    requires Room(c, area) && Fits(calls, area) && tcpMss <= |area| < 0xff00 && c.state == SYN_SENT
    requires !seg.flags.rst && !OutOfOrder(c, seg) && !(Acks(c, seg) && seg.flags == SYN_ACK)
    ensures var s := Arrive(c, slen, seg, area, calls, tcpMss);
      && Is(s.c, CLOSED)
      && var out := OnWire(s, Some(seg), host, tcpMss);
      && out.Some? && out.value.flags.rst && out.value.flags.ack && out.value.dst == seg.src
      && out.value.sport == seg.dport && out.value.dport == seg.sport
      && out.value.seqno == seg.ackno && out.value.ackno == Plus(seg.seqno, 1) && Units(out.value) == 0
  {
  }

  /** A SYN for a listening port when every slot is taken is dropped without an answer. */
  lemma NoSlotNoAnswer(e: Engine, seg: Segment, area: seq<byte>, calls: seq<AppCall>, host: Addr, tcpMss: u16)
    requires RoomAll(e.conns, area) && Fits(calls, area) && tcpMss <= |area| && 44 <= |area|
    requires FindConn(e.conns, seg) == |e.conns| && seg.flags == SYN && seg.dport in e.ports
    requires forall c <- e.conns :: !Is(c, CLOSED) && !Is(c, TIME_WAIT)
    ensures Input(e, seg, area, calls, host, tcpMss) == Result(e, None, None)
  {
    SlotIsBest(e.conns, |e.conns|);
  }

  /** uip_connect fails then too, but uses up a port. */
  lemma NoSlotNoConnection(e: Engine, ripaddr: Addr, rport: u16, tcpMss: u16)
    requires (forall c <- e.conns :: !Is(c, CLOSED) && !Is(c, TIME_WAIT)) && e.lastport < 32000 && |e.conns| < 0x100
    ensures var e' := ConnectTo(e, ripaddr, rport, tcpMss);
      e' == e.(lastport := e'.lastport) && !PortUsed(e.conns, e'.lastport) && e'.lastport != e.lastport
  {
    SlotIsBest(e.conns, |e.conns|);
    FreePortIsFree(e.conns, e.lastport);
    FreePortMoves(e.conns, e.lastport, |e.conns|);
  }

  lemma FreePortMoves(conns: seq<Conn>, p: u16, n: nat)
    requires p < 32000 && n < 0x100
    ensures FreePort(conns, p, n) != p
  {
    FreePortAhead(conns, p, n);
    CandidatesDistinct(p, n + 1);
  }

  lemma {:induction false} FreePortAhead(conns: seq<Conn>, p: u16, n: nat)
    ensures FreePort(conns, p, n) as int in Candidates(p, n + 1)
    decreases n
  {
    assert Candidates(p, n + 1) == {NextPort(p) as int} + Candidates(NextPort(p), n);
    if n > 0 && PortUsed(conns, NextPort(p)) {
      FreePortAhead(conns, NextPort(p), n - 1);
    }
  }

  // ----- what is left in uip_slen -----

  /** Without a callback a tick resets uip_slen, */
  lemma TickResetsLength(c: Conn, slen: u16, area: seq<byte>, calls: seq<AppCall>)
    requires Room(c, area) && Fits(calls, area)
    ensures var s := Timer(c, area, calls); s.call == None ==> s.slen == 0
    ensures var s := Poll(c, slen, area, calls); s.call == None ==> s.slen == slen && s.c == c
  {
  }

  /** and a segment, like a poll, leaves it as it was. */
  lemma LengthStays(c: Conn, slen: u16, seg: Segment, area: seq<byte>, calls: seq<AppCall>, tcpMss: u16)
    requires Room(c, area) && Fits(calls, area) && tcpMss <= |area|
    ensures var s := Arrive(c, slen, seg, area, calls, tcpMss); s.call == None ==> s.slen == slen
  {
  }

  /** What the application sends in a callback for a RST is not sent, but its length is left behind. */
  lemma ResetLeavesLength(e: Engine, seg: Segment, area: seq<byte>, data: seq<byte>, host: Addr, tcpMss: u16)
    requires RoomAll(e.conns, area) && tcpMss <= |area| && 44 <= |area| && 0 < |data| <= |area|
    requires FindConn(e.conns, seg) < |e.conns| && seg.flags.rst
    ensures Fits([Send(data)], area)
    ensures var r := Input(e, seg, area, [Send(data)], host, tcpMss); r.out == None && r.e.slen == |data|
  {
    var c := e.conns[FindConn(e.conns, seg)];
    assert Run(AppView({ABORT}, e.slen, false, area), [Send(data)]) ==
      Apply(AppView({ABORT}, e.slen, false, area), Send(data)) by {
      assert [Send(data)][1..] == [];
    }
  }
}
