/** Two stacks talk to each other: opening, data, both ways of closing, and a refused connection, each
    from the first segment to the last (sections 3.4 and 3.5 of RFC 793). */
module TcpTalk {
  import opened Bytes
  import opened Tcp
  import opened TcpTable
  import opened TcpOptions
  import opened TcpReplies

  /** A host: its address, its own segment size and what lies in its packet buffer. */
  datatype Host = Host(addr: Addr, mss: u16, area: seq<byte>)

  predicate Ready(h: Host) {
    4 <= h.mss <= |h.area| < 0xff00 && 44 <= |h.area|
  }

  /** The buffer of a host once a segment with this body has arrived. */
  function Holding(h: Host, body: seq<byte>): (h': Host)
    requires |body| <= |h.area|
    ensures body <= h'.area && |h'.area| == |h.area|
  {
    h.(area := body + h.area[|body|..])
  }

  ghost function Takes(c: Conn, h: Host, seg: Segment, calls: seq<AppCall>): Step
    requires Ready(h) && |seg.body| <= |h.area| && Room(c, h.area) && Fits(calls, h.area)
  {
    Arrive(c, 0, seg, Holding(h, seg.body).area, calls, h.mss)
  }

  /** The segment a step sends. */
  ghost function Sends(s: Step, h: Host): Option<Segment>
    requires s.out.Emit? ==> |s.out.payload| < 0xff00
  {
    OnWire(s, None, h.addr, h.mss)
  }

  // ----- opening -----

  /** After uip_connect the second tick sends the SYN. */
  lemma SecondTickSends(slot: Conn, a: Host, b: Addr, rport: u16, lport: u16, iss: Quad)
    requires Ready(a)
    ensures var c0 := Open(slot, b, rport, lport, iss, a.mss);
      && Room(c0, a.area) && c0.sa == 0 && c0.sv == 16 && c0.rto == 3
      && var s1 := Timer(c0, a.area, []);
      && s1.out == Silent && Room(s1.c, a.area)
      && var s2 := Timer(s1.c, a.area, []);
      && s2.c == c0.(timer := 3, nrtx := 1)
      && Sends(s2, a) == Some(Segment(a.addr, b, lport, rport, iss, slot.rcvNxt, 6, SYN, a.mss, 0, 44,
                                      [2, 4, a.mss / 0x100, a.mss % 0x100]))
  {
  }

  /** A SYN for a listening port: the slot that is filled, and the answer. */
  lemma SynIsAnswered(e: Engine, b: Host, syn: Segment, peerMss: u16)
    requires syn.flags == SYN && syn.doff == 6 && syn.body == [2, 4, peerMss / 0x100, peerMss % 0x100]
    requires Ready(b) && RoomAll(e.conns, b.area)
    requires FindConn(e.conns, syn) == |e.conns| && syn.dport in e.ports && Slot(e.conns, |e.conns|) >= 0
    ensures var k := Slot(e.conns, |e.conns|);
      var r := Input(e, syn, Holding(b, syn.body).area, [], b.addr, b.mss);
      && k < |r.e.conns| && r.call == None
      && var d := r.e.conns[k];
      && d.ripaddr == syn.src && d.lport == syn.dport && d.rport == syn.sport
      && d.state == SYN_RCVD && !d.stopped && d.len == 1 && d.nrtx == 0
      && d.sa == 0 && d.sv == 4 && d.rto == d.timer == 3
      && d.rcvNxt == Plus(syn.seqno, 1) && d.sndNxt == e.iss && d.mss == d.initialmss == Min(peerMss, b.mss)
      && r.out == Some(Segment(b.addr, syn.src, syn.dport, syn.sport, e.iss, Plus(syn.seqno, 1), 6, SYN_ACK, b.mss, 0,
                               44,
                               [2, 4, b.mss / 0x100, b.mss % 0x100]))
  {
    SizeIsRead(Holding(b, syn.body).area, peerMss);
  }

  /** The first option of a SYN gives the segment size. */
  lemma SizeIsRead(area: seq<byte>, mss: u16)
    requires 44 <= |area| && area[0] == 2 && area[1] == 4 && area[2] == mss / 0x100 && area[3] == mss % 0x100
    ensures MssOption(6, area) == Some(mss) && OptionsEnd(6, area)
  {
    assert NextCursor(area, 4, 0) == None;
  }

  /** The SYN|ACK for our SYN establishes the connection and is acknowledged. */
  lemma SynAckIsAnswered(c: Conn, a: Host, seg: Segment, peerMss: u16)
    requires Ready(a) && Room(c, a.area) && c.state == SYN_SENT && !c.stopped && c.len == 1
    requires seg.flags == SYN_ACK && seg.ackno == Plus(c.sndNxt, 1) && seg.len == 44 && seg.doff == 6
    requires seg.body == [2, 4, peerMss / 0x100, peerMss % 0x100]
    ensures var s := Takes(c, a, seg, []);
      && s.c.state == ESTABLISHED && !s.c.stopped && s.c.len == 0 && SameKey(c, s.c)
      && s.c.sndNxt == Plus(c.sndNxt, 1) && s.c.rcvNxt == Plus(seg.seqno, 1)
      && s.c.mss == s.c.initialmss == Min(peerMss, a.mss)
      && s.call.Some? && s.call.value.flags == {CONNECTED, NEWDATA} && s.call.value.data == []
      && Sends(s, a) == Some(Segment(a.addr, c.ripaddr, c.lport, c.rport, Plus(c.sndNxt, 1), Plus(seg.seqno, 1), 5, ACK,
                                     a.mss, 0, 40, []))
  {
    SizeIsRead(Holding(a, seg.body).area, peerMss);
  }

  /** A SYN|ACK without options leaves the connection with its own segment size. */
  lemma OwnSizeWithoutOption(slot: Conn, a: Host, b: Addr, rport: u16, lport: u16, iss: Quad, seg: Segment)
    requires Ready(a) && seg.flags == SYN_ACK && seg.ackno == Plus(iss, 1)
    requires seg.len == 40 && seg.doff == 5 && seg.body == []
    ensures var c := Open(slot, b, rport, lport, iss, a.mss);
      && Room(c, a.area)
      && var s := Takes(c, a, seg, []);
      && Is(s.c, ESTABLISHED) && s.c.mss == s.c.initialmss == a.mss
  {
    assert MssOption(5, Holding(a, []).area) == None;
  }

  /** And its acknowledgement establishes the other end. */
  lemma AckEstablishes(d: Conn, b: Host, seg: Segment)
    requires Ready(b) && Room(d, b.area) && d.state == SYN_RCVD && !d.stopped && d.len == 1
    requires seg.flags == ACK && seg.ackno == Plus(d.sndNxt, 1) && seg.len == 40 && seg.doff == 5 && seg.body == []
    ensures var s := Takes(d, b, seg, []);
      && s.c.state == ESTABLISHED && !s.c.stopped && s.c.len == 0 && SameKey(d, s.c)
      && s.c.sndNxt == Plus(d.sndNxt, 1) && s.c.rcvNxt == d.rcvNxt && s.c.mss == d.mss && s.c.initialmss == d.initialmss
      && s.call.Some? && s.call.value.flags == {CONNECTED} && s.out == Silent
  {
    PlusZero(d.rcvNxt);
  }

  /** Both ends are established, with nothing outstanding, and agree on everything. */
  predicate Talking(c: Conn, a: Host, d: Conn, b: Host) {
    && Ready(a) && Ready(b) && Room(c, a.area) && Room(d, b.area) && Mirrored(c, a.addr, d, b.addr)
    && Is(c, ESTABLISHED) && Is(d, ESTABLISHED) && c.len == 0 && d.len == 0
    && c.sndNxt == d.rcvNxt && d.sndNxt == c.rcvNxt
  }

  /** The whole handshake: from uip_connect at a and a listening port at b to two ends that agree, with
      the smaller of the two segment sizes. */
  lemma Handshake(slot: Conn, a: Host, lport: u16, iss: Quad, e: Engine, b: Host, rport: u16) returns (c: Conn, d: Conn)
    requires Ready(a) && Ready(b) && RoomAll(e.conns, b.area) && rport in e.ports && Slot(e.conns, |e.conns|) >= 0
    requires forall x <- e.conns :: !(!Is(x, CLOSED) && x.lport == rport && x.rport == lport && x.ripaddr == a.addr)
    ensures Talking(c, a, d, b) && c.mss == d.mss == c.initialmss == d.initialmss == Min(a.mss, b.mss)
    ensures c.sndNxt == Plus(iss, 1) && d.sndNxt == Plus(e.iss, 1) && c.lport == lport && d.lport == rport
  {
    var c0 := Open(slot, b.addr, rport, lport, iss, a.mss);
    SecondTickSends(slot, a, b.addr, rport, lport, iss);
    var s2 := Timer(Timer(c0, a.area, []).c, a.area, []);
    var syn := Sends(s2, a).value;
    assert FindConn(e.conns, syn) == |e.conns|;
    SynIsAnswered(e, b, syn, a.mss);
    var r := Input(e, syn, Holding(b, syn.body).area, [], b.addr, b.mss);
    var d0 := r.e.conns[Slot(e.conns, |e.conns|)];
    SynAckIsAnswered(s2.c, a, r.out.value, b.mss);
    var s3 := Takes(s2.c, a, r.out.value, []);
    AckEstablishes(d0, b, Sends(s3, a).value);
    c, d := s3.c, Takes(d0, b, Sends(s3, a).value, []).c;
  }

  /** A connection to a port on which nobody listens is refused, and the application is told. */
  lemma Refused(slot: Conn, a: Host, lport: u16, iss: Quad, e: Engine, b: Host, rport: u16)
    requires Ready(a) && Ready(b) && RoomAll(e.conns, b.area) && rport !in e.ports
    requires forall x <- e.conns :: !(!Is(x, CLOSED) && x.lport == rport && x.rport == lport && x.ripaddr == a.addr)
    ensures var syn := Segment(a.addr, b.addr, lport, rport, iss, slot.rcvNxt, 6, SYN, a.mss, 0, 44,
                               [2, 4, a.mss / 0x100, a.mss % 0x100]);
      var r := Input(e, syn, Holding(b, syn.body).area, [], b.addr, b.mss);
      && r.e == e && r.out.Some?
      && var c := Open(slot, b.addr, rport, lport, iss, a.mss).(timer := 3, nrtx := 1);
      && Matches(c, r.out.value) && Room(c, a.area) && |r.out.value.body| == 0
      && var s := Takes(c, a, r.out.value, []);
      && Is(s.c, CLOSED) && s.out == Silent && s.call.Some? && s.call.value.flags == {ABORT}
  {
  }

  // ----- data -----

  /** New data on a poll, no more than a segment holds. */
  lemma PollSends(c: Conn, a: Host, data: seq<byte>)
    requires Ready(a) && Room(c, a.area) && Is(c, ESTABLISHED) && c.len == 0 && 0 < |data| <= c.mss
    ensures Fits([Send(data)], a.area)
    ensures var s := Poll(c, 0, a.area, [Send(data)]);
      && s.c == c.(len := |data|, nrtx := 0) && s.call.Some? && s.call.value.flags == {POLL}
      && Sends(s, a) == Some(Segment(a.addr, c.ripaddr, c.lport, c.rport, c.sndNxt, c.rcvNxt, 5, ACK_PSH, a.mss, 0,
                                     40 + |data|, data))
  {
    var v := AppView({POLL}, 0, false, a.area);
    assert Run(v, [Send(data)]) == Apply(v, Send(data)) by {
      assert [Send(data)][1..] == [];
    }
    assert (data + a.area[|data|..])[..|data|] == data;
  }

  /** Data that is due is shown, byte for byte, and acknowledged. */
  lemma DataIsShown(d: Conn, b: Host, seg: Segment)
    requires Ready(b) && Room(d, b.area) && Is(d, ESTABLISHED) && d.len == 0 && 0 < |seg.body| <= |b.area|
    requires seg.flags == ACK_PSH && seg.seqno == d.rcvNxt && seg.len == 40 + |seg.body| && seg.doff == 5
    ensures var s := Takes(d, b, seg, []);
      && s.call.Some? && s.call.value.flags == {NEWDATA} && s.call.value.data == seg.body
      && s.c == d.(rcvNxt := Plus(d.rcvNxt, |seg.body|), nrtx := 0,
                   mss := if 0 < seg.wnd <= d.initialmss then seg.wnd else d.initialmss)
      && Sends(s, b) == Some(Segment(b.addr, d.ripaddr, d.lport, d.rport, d.sndNxt, Plus(d.rcvNxt, |seg.body|), 5, ACK,
                                     b.mss, 0, 40, []))
  {
    assert Shown(Holding(b, seg.body).area, 0, |seg.body|) == seg.body;
  }

  /** The acknowledgement of all that is outstanding. */
  lemma AckIsTaken(c: Conn, a: Host, seg: Segment)
    requires Ready(a) && Room(c, a.area) && Is(c, ESTABLISHED) && c.len > 0
    requires seg.flags == ACK && seg.ackno == Plus(c.sndNxt, c.len) && seg.len == 40 && seg.doff == 5 && seg.body == []
    ensures var s := Takes(c, a, seg, []);
      && Is(s.c, ESTABLISHED) && s.c.len == 0 && SameKey(c, s.c) && s.c.nrtx == 0 && s.c.timer == s.c.rto
      && s.c.sndNxt == Plus(c.sndNxt, c.len) && s.c.rcvNxt == c.rcvNxt && s.c.initialmss == c.initialmss
      && s.c.mss == (if 0 < seg.wnd <= c.initialmss then seg.wnd else c.initialmss)
      && s.call.Some? && s.call.value.flags == {ACKDATA} && s.out == Silent
  {
  }

  /** One exchange: what a's application sends on a poll is what b's is shown, a's is told that it has
      arrived, and the two ends agree again. */
  lemma Exchange(c: Conn, a: Host, d: Conn, b: Host, data: seq<byte>) returns (c': Conn, d': Conn, shown: seq<byte>)
    requires Talking(c, a, d, b) && 0 < |data| <= c.mss && |data| <= |b.area|
    ensures shown == data && Talking(c', a, d', b)
    ensures c'.sndNxt == Plus(c.sndNxt, |data|) && d'.sndNxt == d.sndNxt
  {
    PollSends(c, a, data);
    var s := Poll(c, 0, a.area, [Send(data)]);
    DataIsShown(d, b, Sends(s, a).value);
    var t := Takes(d, b, Sends(s, a).value, []);
    AckIsTaken(s.c, a, Sends(t, b).value);
    c', d', shown := Takes(s.c, a, Sends(t, b).value, []).c, t.c, t.call.value.data;
  }

  // ----- stopping -----

  /** A stopped connection takes no data, and does not answer it. */
  lemma StoppedTakesNothing(d: Conn, b: Host, seg: Segment)
    requires Ready(b) && Room(d, b.area) && d.state == ESTABLISHED && d.stopped && d.len == 0
    requires seg.flags == ACK_PSH && seg.seqno == d.rcvNxt && |seg.body| <= |b.area|
    ensures var s := Takes(d, b, seg, []);
      s.c.rcvNxt == d.rcvNxt && s.c.stopped && s.call == None && s.out == Silent
  {
  }

  /** uip_stop() closes the window with the next segment, and uip_restart() announces at once that it is open. */
  lemma RestartAnnounces(c: Conn, a: Host)
    requires Ready(a) && Room(c, a.area) && c.state == ESTABLISHED && c.len == 0
    ensures Fits([Stop], a.area) && Fits([Restart], a.area)
    ensures Poll(c, 0, a.area, [Stop]).c == c.(stopped := true, nrtx := 0)
    ensures var s := Poll(c, 0, a.area, [Restart]);
      && s.c == c.(stopped := false, nrtx := 0)
      && var out := Sends(s, a);
      && out.Some? && out.value.wnd == a.mss && out.value.flags == ACK && out.value.ackno == c.rcvNxt &&
        out.value.body == []
  {
    var v := AppView({POLL}, 0, c.stopped, a.area);
    assert Run(v, [Stop]) == Apply(v, Stop) by {
      assert [Stop][1..] == [];
    }
    assert Run(v, [Restart]) == Apply(v, Restart) by {
      assert [Restart][1..] == [];
    }
  }

  // ----- closing -----

  /** uip_close() on a poll. */
  lemma PollCloses(c: Conn, a: Host)
    requires Ready(a) && Room(c, a.area) && Is(c, ESTABLISHED) && c.len == 0
    ensures Fits([Close], a.area)
    ensures var s := Poll(c, 0, a.area, [Close]);
      && s.c == c.(state := FIN_WAIT_1, len := 1, nrtx := 0)
      && Sends(s, a) == Some(Segment(a.addr, c.ripaddr, c.lport, c.rport, c.sndNxt, c.rcvNxt, 5, FIN_ACK, a.mss, 0, 40,
                                     []))
  {
    var v := AppView({POLL}, 0, false, a.area);
    assert Run(v, [Close]) == Apply(v, Close) by {
      assert [Close][1..] == [];
    }
  }

  /** uip_abort() on a poll. */
  lemma PollAborts(c: Conn, a: Host)
    requires Ready(a) && Room(c, a.area) && Is(c, ESTABLISHED) && c.len == 0
    ensures Fits([Abort], a.area)
    ensures var s := Poll(c, 0, a.area, [Abort]);
      && Is(s.c, CLOSED)
      && Sends(s, a) == Some(Segment(a.addr, c.ripaddr, c.lport, c.rport, c.sndNxt, c.rcvNxt, 5, RST_ACK, a.mss, 0, 40,
                                     []))
  {
    var v := AppView({POLL}, 0, false, a.area);
    assert Run(v, [Abort]) == Apply(v, Abort) by {
      assert [Abort][1..] == [];
    }
  }

  /** The peer's FIN is acknowledged together with ours. */
  lemma FinIsAnswered(d: Conn, b: Host, seg: Segment)
    requires Ready(b) && Room(d, b.area) && Is(d, ESTABLISHED) && d.len == 0
    requires seg.flags == FIN_ACK && seg.seqno == d.rcvNxt && seg.len == 40 && seg.doff == 5 && seg.body == []
    ensures var s := Takes(d, b, seg, []);
      && s.c == d.(state := LAST_ACK, len := 1, nrtx := 0, rcvNxt := Plus(d.rcvNxt, 1))
      && s.call.Some? && s.call.value.flags == {CLOSE}
      && Sends(s, b) == Some(Segment(b.addr, d.ripaddr, d.lport, d.rport, d.sndNxt, Plus(d.rcvNxt, 1), 5, FIN_ACK,
                                     b.mss,
                                     0, 40, []))
  {
  }

  /** A FIN in FIN_WAIT_1, with or without the acknowledgement of ours. */
  lemma FinMeetsFin(c: Conn, a: Host, seg: Segment)
    requires Ready(a) && Room(c, a.area) && Is(c, FIN_WAIT_1) && c.len == 1
    requires seg.flags == FIN_ACK && seg.seqno == c.rcvNxt && seg.len == 40 && seg.doff == 5 && seg.body == []
    ensures var s := Takes(c, a, seg, []);
      && SameKey(c, s.c) && s.c.rcvNxt == Plus(c.rcvNxt, 1) && s.call.Some? && s.call.value.flags == {CLOSE}
      && (if seg.ackno == Plus(c.sndNxt, 1) then
            Is(s.c, TIME_WAIT) && s.c.timer == 0 && s.c.len == 0 && s.c.sndNxt == Plus(c.sndNxt, 1)
          else Is(s.c, CLOSING) && s.c.len == 1 && s.c.sndNxt == c.sndNxt)
      && Sends(s, a) == Some(Segment(a.addr, c.ripaddr, c.lport, c.rport, s.c.sndNxt, Plus(c.rcvNxt, 1), 5, ACK, a.mss,
                                     0,
                                     40, []))
  {
  }

  /** The last acknowledgement, in LAST_ACK, CLOSING and FIN_WAIT_1. */
  lemma FinIsAcked(c: Conn, a: Host, seg: Segment)
    requires Ready(a) && Room(c, a.area) && !c.stopped && c.len == 1 && c.state in {LAST_ACK, CLOSING, FIN_WAIT_1}
    requires seg.flags == ACK && seg.ackno == Plus(c.sndNxt, 1) && seg.len == 40 && seg.doff == 5 && seg.body == []
    ensures var s := Takes(c, a, seg, []);
      && Is(s.c, if c.state == LAST_ACK then CLOSED else if c.state == CLOSING then TIME_WAIT else FIN_WAIT_2)
      && s.out == Silent && s.c.len == 0 && SameKey(c, s.c)
      && (c.state == LAST_ACK ==> s.call.Some? && s.call.value.flags == {CLOSE})
  {
  }

  /** One side closes, and the other follows: the first waits in TIME_WAIT, the second is CLOSED. */
  lemma Teardown(c: Conn, a: Host, d: Conn, b: Host) returns (c': Conn, d': Conn)
    requires Talking(c, a, d, b)
    ensures Is(c', TIME_WAIT) && c'.timer == 0 && Is(d', CLOSED)
  {
    PollCloses(c, a);
    var s := Poll(c, 0, a.area, [Close]);
    FinIsAnswered(d, b, Sends(s, a).value);
    var t := Takes(d, b, Sends(s, a).value, []);
    FinMeetsFin(s.c, a, Sends(t, b).value);
    var u := Takes(s.c, a, Sends(t, b).value, []);
    FinIsAcked(t.c, b, Sends(u, a).value);
    c', d' := u.c, Takes(t.c, b, Sends(u, a).value, []).c;
  }

  /** Both sides close at once: the FINs cross, and both end in TIME_WAIT. */
  lemma CloseAtOnce(c: Conn, a: Host, d: Conn, b: Host) returns (c': Conn, d': Conn)
    requires Talking(c, a, d, b)
    ensures Is(c', TIME_WAIT) && Is(d', TIME_WAIT)
  {
    PollCloses(c, a);
    PollCloses(d, b);
    var s, t := Poll(c, 0, a.area, [Close]), Poll(d, 0, b.area, [Close]);
    OneApart(c.sndNxt);
    OneApart(d.sndNxt);
    FinMeetsFin(s.c, a, Sends(t, b).value);
    FinMeetsFin(t.c, b, Sends(s, a).value);
    var u, w := Takes(s.c, a, Sends(t, b).value, []), Takes(t.c, b, Sends(s, a).value, []);
    FinIsAcked(u.c, a, Sends(w, b).value);
    FinIsAcked(w.c, b, Sends(u, a).value);
    c', d' := Takes(u.c, a, Sends(w, b).value, []).c, Takes(w.c, b, Sends(u, a).value, []).c;
  }

  lemma OneApart(q: Quad)
    ensures Plus(q, 1) != q
  {
    PlusZero(q);
    if Plus(q, 1) == q {
      PlusInjective(q, 0, 1);
    }
  }
}
