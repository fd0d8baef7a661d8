/** A retransmission in terms of the stream: it covers what is outstanding. */
module TcpResend {
  import opened Bytes
  import opened Tcp
  import opened TcpTable
  import opened TcpReplies
  import opened TcpDelivery

  /** When the timer runs out, other than for good, what is sent covers all units from the first
      unacknowledged one to the last sent: a control segment in the states with one unit outstanding, and
      in ESTABLISHED what the application sends again. */
  lemma ResendsAll(x: Endpoint, s: Step, turn: Turn, host: Addr, tcpMss: u16) returns (f: Flight)
    requires Local(x) && x.born && Equipped(x.c, turn, tcpMss) && s == Timer(x.c, turn.area, turn.calls)
    requires x.c.timer == 0 && x.c.len > 0 && x.c.nrtx < if x.c.state in {SYN_SENT, SYN_RCVD} then 5 else 8
    requires x.c.state in {SYN_SENT, SYN_RCVD, FIN_WAIT_1, CLOSING, LAST_ACK} ||
      (x.c.state == ESTABLISHED && Run(AppView({REXMIT}, 0, x.c.stopped, turn.area), turn.calls).slen > 0)
    ensures s.out.Emit? && |s.out.payload| < 0xff00
    ensures Launched(x.(c := s.c), s, None, host, tcpMss) == {f}
    ensures f.k == Una(x) && f.k + Units(f.seg) == Total(x) && f.seg.seqno == Plus(x.iss, f.k)
  {
    if x.c.state == ESTABLISHED {
      AsksForData(x.c, turn.area, turn.calls, host, tcpMss);
    } else {
      RetransmitsAll(x.c, turn.area, turn.calls, host, tcpMss);
    }
    f := Flight(Una(x), x.rcv, OnWire(s, None, host, tcpMss).value);
  }
}
