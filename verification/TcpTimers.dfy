/** How long a connection lives when it hears nothing: the exact number of timer ticks to CLOSED. */
module TcpTimers {
  import opened Bytes
  import opened Tcp
  import opened TcpTable

  function TickStep(c: Conn, turn: Turn): Step
    requires Able(c, turn)
  {
    Timer(c, turn.area, turn.calls)
  }

  /** The ticks are defined, and the application keeps its contract in them. */
  ghost predicate Ticking(c: Conn, turns: seq<Turn>)
    decreases |turns|
  {
    turns == [] ||
    (Able(c, turns[0]) && StopHarmless(TickStep(c, turns[0]).call, turns[0].calls) &&
     Ticking(TickStep(c, turns[0]).c, turns[1..]))
  }

  ghost function Ticks(c: Conn, turns: seq<Turn>): Conn
    requires Ticking(c, turns)
    decreases |turns|
  {
    if turns == [] then c else Ticks(TickStep(c, turns[0]).c, turns[1..])
  }

  /** The retransmissions allowed in the state of c. */
  function Limit(c: Conn): byte {
    if c.state in {SYN_RCVD, SYN_SENT} then MAXSYNRTX else MAXRTX
  }

  /** The ticks spent waiting after retransmissions k, k+1, ..., m-1. */
  function BackoffTicks(k: nat, m: byte): nat
    decreases m - k
  {
    if k >= m then 0 else Backoff(k) + 1 + BackoffTicks(k + 1, m)
  }

  lemma BackoffIsShift(k: byte)
    ensures Backoff(k) == RTO * [1, 2, 4, 8, 16][Min(k, 4)]
  {
  }

  /** The connection waits for something: an acknowledgement, or its own end. */
  predicate Waiting(c: Conn) {
    c.len > 0 || Is(c, TIME_WAIT) || Is(c, FIN_WAIT_2) || Is(c, CLOSED)
  }

  /** The number of ticks to CLOSED. */
  function Fuse(c: Conn): nat {
    if Is(c, CLOSED) then 0
    else if Is(c, TIME_WAIT) || Is(c, FIN_WAIT_2) then
      if c.timer < TIME_WAIT_TIMEOUT then TIME_WAIT_TIMEOUT - c.timer else 0x100 + TIME_WAIT_TIMEOUT - c.timer
    else c.timer + 1 + BackoffTicks(c.nrtx, Limit(c))
  }

  /** Every tick burns exactly one unit of the fuse. */
  lemma TickBurns(c: Conn, turn: Turn, tcpMss: u16)
    requires ConnInv(c, tcpMss) && tcpMss > 0 && Waiting(c) && Able(c, turn)
    requires StopHarmless(TickStep(c, turn).call, turn.calls)
    ensures var c' := TickStep(c, turn).c;
      && ConnInv(c', tcpMss) && Waiting(c')
      && Fuse(c') == (if Fuse(c) == 0 then 0 else Fuse(c) - 1)
      && (Is(c', CLOSED) <==> Fuse(c) <= 1)
  {
    TimerKeeps(c, turn.area, turn.calls, tcpMss);
    if c.len > 0 && c.timer == 0 && !Is(c, CLOSED) && !GivesUp(c) {
      RetransmissionBurns(c, turn, tcpMss);
    }
  }

  lemma RetransmissionBurns(c: Conn, turn: Turn, tcpMss: u16)
    requires ConnInv(c, tcpMss) && Able(c, turn)
    requires c.len > 0 && c.timer == 0 && !Is(c, CLOSED) && !Is(c, TIME_WAIT) && !Is(c, FIN_WAIT_2) && !GivesUp(c)
    ensures var c' := TickStep(c, turn).c;
      c'.len == c.len && c'.state == c.state && c'.timer == Backoff(c.nrtx) && c'.nrtx == c.nrtx + 1
  {
  }

  /** With only timer ticks, a waiting connection is CLOSED after exactly Fuse(c) of them. */
  lemma {:induction false} ClosesExactly(c: Conn, turns: seq<Turn>, tcpMss: u16)
    requires ConnInv(c, tcpMss) && tcpMss > 0 && Waiting(c) && Ticking(c, turns)
    ensures Is(Ticks(c, turns), CLOSED) <==> |turns| >= Fuse(c)
    ensures Fuse(Ticks(c, turns)) == if |turns| >= Fuse(c) then 0 else Fuse(c) - |turns|
    decreases |turns|
  {
    if turns != [] {
      TickBurns(c, turns[0], tcpMss);
      ClosesExactly(TickStep(c, turns[0]).c, turns[1..], tcpMss);
    }
  }

  /** The waiting states without outstanding data end within 256 ticks, and outstanding data is
      given up after 501 at most. */
  lemma FuseBounded(c: Conn, tcpMss: u16)
    requires ConnInv(c, tcpMss) && Waiting(c)
    ensures Is(c, TIME_WAIT) || Is(c, FIN_WAIT_2) ==> 1 <= Fuse(c) <= 256
    ensures c.len > 0 ==> Fuse(c) <= 501
  {
    BackoffTotal(c.nrtx, Limit(c));
  }

  lemma {:induction false} BackoffTotal(k: byte, m: byte)
    requires k <= m <= 8
    ensures BackoffTicks(k, m) <= [245, 241, 234, 221, 196, 147, 98, 49, 0][k]
    decreases m - k
  {
    if k < m {
      BackoffTotal(k + 1, m);
    }
  }
}
