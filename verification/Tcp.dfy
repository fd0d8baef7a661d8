/** The TCP engine of uip.c at the level of connections and segments: what one incoming
    segment, timer tick or poll does to a connection, and which segment answers it. The
    class in Uip.dfy computes these functions on the bytes of the packet buffer. */
module Tcp {
  import opened Bytes

  // ----- configuration (uipopt.h) -----

  const RTO: byte := 3
  const MAXRTX: byte := 8
  const MAXSYNRTX: byte := 5
  const TIME_WAIT_TIMEOUT: byte := 120

  // ----- connections -----

  datatype Addr = Addr(hi: u16, lo: u16)

  datatype TcpState =
    CLOSED | SYN_RCVD | SYN_SENT | ESTABLISHED | FIN_WAIT_1 | FIN_WAIT_2 | CLOSING | TIME_WAIT | LAST_ACK

  /** struct uip_conn; tcpstateflags is the pair of a state and the UIP_STOPPED bit. */
  datatype Conn = Conn(
    ripaddr: Addr, lport: u16, rport: u16,
    rcvNxt: Quad, sndNxt: Quad,
    len: u16, mss: u16, initialmss: u16,
    sa: byte, sv: byte, rto: byte,
    state: TcpState, stopped: bool,
    timer: byte, nrtx: byte)

  /** `tcpstateflags == state`, with the stopped bit clear. */
  predicate Is(c: Conn, state: TcpState) {
    c.state == state && !c.stopped
  }

  function Enter(c: Conn, state: TcpState): Conn {
    c.(state := state, stopped := false)
  }

  // ----- segments -----

  /** The control bits of the flags byte. */
  datatype Ctl = Ctl(fin: bool, syn: bool, rst: bool, psh: bool, ack: bool, urg: bool)

  const SYN := Ctl(false, true, false, false, false, false)
  const ACK := Ctl(false, false, false, false, true, false)
  const ACK_PSH := Ctl(false, false, false, true, true, false)
  const SYN_ACK := Ctl(false, true, false, false, true, false)
  const FIN_ACK := Ctl(true, false, false, false, true, false)
  const RST_ACK := Ctl(false, false, true, false, true, false)

  type nibble = x: int | 0 <= x < 16

  /** The header fields of a TCP/IP packet that the engine reads or writes. `doff` is the upper
      nibble of tcpoffset, `len` the total length in the IP header, `body` what follows the
      20-byte TCP header. */
  datatype Segment = Segment(
    src: Addr, dst: Addr, sport: u16, dport: u16,
    seqno: Quad, ackno: Quad, doff: nibble, flags: Ctl, wnd: u16, urgp: u16,
    len: u16, body: seq<byte>)

  /** `uip_len - c - UIP_IPH_LEN` on u16_t. */
  function DataLen(seg: Segment): u16 {
    var n := seg.len - seg.doff * 4 - 20;
    if n < 0 then n + 0x1_0000 else n
  }

  // ----- the application -----

  datatype Flag = ACKDATA | NEWDATA | REXMIT | POLL | CLOSE | ABORT | CONNECTED | TIMEDOUT

  /** The calls an application can make while it is called back. */
  datatype AppCall = Send(data: seq<byte>) | Close | Abort | Stop | Restart

  /** The globals an application can change: uip_flags, uip_slen, the stopped bit of the current
      connection and the packet buffer from uip_sappdata on. */
  datatype AppView = AppView(flags: set<Flag>, slen: u16, stopped: bool, area: seq<byte>)

  predicate Fits(calls: seq<AppCall>, area: seq<byte>) {
    forall call <- calls :: call.Send? ==> |call.data| <= |area| && |call.data| < 0x1_0000
  }

  function Apply(v: AppView, call: AppCall): (v': AppView)
    requires Fits([call], v.area)
    ensures |v'.area| == |v.area|
  {
    match call
    case Send(data) =>
      assert call in [call];
      if |data| > 0 then v.(slen := |data|, area := data + v.area[|data|..]) else v
    case Close => v.(flags := {CLOSE})
    case Abort => v.(flags := {ABORT})
    case Stop => v.(stopped := true)
    case Restart => v.(flags := v.flags + {NEWDATA}, stopped := false)
  }

  function Run(v: AppView, calls: seq<AppCall>): (v': AppView)
    requires Fits(calls, v.area)
    ensures |v'.area| == |v.area|
    decreases |calls|
  {
    if calls == [] then v
    else
      var v1 := Apply(v, calls[0]);
      Run(v1, calls[1..])
  }

  /** One callback: the connection, the flags and the data the application is shown. */
  datatype Callback = Callback(c: Conn, flags: set<Flag>, data: seq<byte>)

  // ----- reactions -----

  /** What a connection wants sent: nothing, a segment of its own, or the incoming segment
      turned round as a RST. */
  datatype Output = Silent | Emit(flags: Ctl, syn: bool, payload: seq<byte>) | Bounce

  datatype Step = Step(c: Conn, slen: u16, out: Output, call: Option<Callback>)

  /** Whether the fields that bound buffer accesses fit the application area. */
  predicate Room(c: Conn, area: seq<byte>) {
    c.len <= |area| && c.mss <= |area| && c.initialmss <= |area| && 44 <= |area|
  }

  /** The surroundings of one invocation: the application area before it, and what the application
      does if it is called. */
  datatype Turn = Turn(area: seq<byte>, calls: seq<AppCall>)

  predicate Able(c: Conn, turn: Turn) {
    Room(c, turn.area) && Fits(turn.calls, turn.area)
  }

  /** A reaction stays inside the application area, and leaves a connection that does too. */
  predicate InBounds(s: Step, area: seq<byte>) {
    Room(s.c, area) && (s.out.Emit? ==> |s.out.payload| <= |area|)
  }

  /** UIP_APPCALL() on connection c, with the given uip_flags and uip_slen. */
  function Call(c: Conn, flags: set<Flag>, slen: u16, area: seq<byte>, calls: seq<AppCall>): AppView
    requires Fits(calls, area)
  {
    Run(AppView(flags, slen, c.stopped, area), calls)
  }

  /** Label `apprexmit`. */
  function AppRexmit(c: Conn, slen: u16, v: AppView): Output
    requires c.len <= |v.area|
  {
    if slen > 0 && c.len > 0 then Emit(ACK_PSH, false, v.area[..c.len])
    else if NEWDATA in v.flags then Emit(ACK, false, [])
    else Silent
  }

  /** The connection and uip_slen after a callback that neither aborts nor closes: new data is cut
      to the MSS, and old data keeps its length. */
  function Prepared(c: Conn, v: AppView): (r: (Conn, u16))
    requires Room(c, v.area)
    ensures Room(r.0, v.area)
  {
    if v.slen > 0 then
      var c0 := if ACKDATA in v.flags then c.(len := 0) else c;
      var slen := if c0.len == 0 then Min(v.slen, c0.mss) else c0.len;
      (c0.(len := slen, nrtx := 0), slen)
    else (c.(nrtx := 0), v.slen)
  }

  /** Label `appsend`, after a callback that left v; c already has v's stopped bit. */
  function AppSend(c: Conn, v: AppView, call: Callback): (s: Step)
    requires Room(c, v.area)
    ensures InBounds(s, v.area) && s.out != Bounce
  {
    if ABORT in v.flags then
      Step(Enter(c, CLOSED), 0, Emit(RST_ACK, false, []), Some(call))
    else if CLOSE in v.flags then
      Step(Enter(c, FIN_WAIT_1).(len := 1, nrtx := 0), 0, Emit(FIN_ACK, false, []), Some(call))
    else
      var (c1, slen) := Prepared(c, v);
      Step(c1, slen, AppRexmit(c1, slen, v), Some(call))
  }

  /** A callback followed by `appsend`. */
  function CallAndSend(c: Conn, flags: set<Flag>, slen: u16, data: seq<byte>, area: seq<byte>,
                       calls: seq<AppCall>): (s: Step)
    requires Room(c, area) && Fits(calls, area)
    ensures InBounds(s, area) && s.out != Bounce
  {
    var v := Call(c, flags, slen, area, calls);
    AppSend(c.(stopped := v.stopped), v, Callback(c, flags, data))
  }

  /** A callback whose answer only shows in uip_slen and the stopped bit. */
  function CallOnly(c: Conn, flags: set<Flag>, slen: u16, data: seq<byte>, area: seq<byte>, calls: seq<AppCall>,
                    out: Output): (s: Step)
    requires Fits(calls, area)
    ensures s.out == out && s.c.(stopped := c.stopped) == c
  {
    var v := Call(c, flags, slen, area, calls);
    Step(c.(stopped := v.stopped), v.slen, out, Some(Callback(c, flags, data)))
  }

  /** The part of a callback's data that lies in the packet buffer. */
  function Shown(area: seq<byte>, from: nat, n: nat): seq<byte> {
    if from + n <= |area| then area[from..from + n] else []
  }

  // ----- timer tick (UIP_TIMER) -----

  function Backoff(nrtx: byte): (t: byte)
    ensures RTO <= t <= 48
  {
    if nrtx == 0 then 3 else if nrtx == 1 then 6 else if nrtx == 2 then 12 else if nrtx == 3 then 24 else 48
  }

  predicate GivesUp(c: Conn) {
    c.nrtx == MAXRTX || ((Is(c, SYN_SENT) || Is(c, SYN_RCVD)) && c.nrtx == MAXSYNRTX)
  }

  function Timer(c: Conn, area: seq<byte>, calls: seq<AppCall>): (s: Step)
    requires Room(c, area) && Fits(calls, area)
    ensures InBounds(s, area)
  {
    if Is(c, TIME_WAIT) || Is(c, FIN_WAIT_2) then
      var c1 := c.(timer := (c.timer + 1) % 0x100);
      Step(if c1.timer == TIME_WAIT_TIMEOUT then Enter(c1, CLOSED) else c1, 0, Silent, None)
    else if Is(c, CLOSED) then
      Step(c, 0, Silent, None)
    else if c.len > 0 then
      if c.timer > 0 then Step(c.(timer := c.timer - 1), 0, Silent, None)
      else if GivesUp(c) then
        CallOnly(Enter(c, CLOSED).(timer := 0xff), {TIMEDOUT}, 0, [], area, calls, Emit(RST_ACK, false, []))
      else Rexmit(c.(timer := Backoff(c.nrtx), nrtx := (c.nrtx + 1) % 0x100), area, calls)
    else if c.state == ESTABLISHED then
      CallAndSend(c, {POLL}, 0, [], area, calls)
    else
      Step(c, 0, Silent, None)
  }

  /** When the timer has run out it is first decremented all the same, on u8_t. */
  lemma TimerRunsOut(c: Conn, area: seq<byte>, calls: seq<AppCall>)
    requires Room(c, area) && Fits(calls, area)
    requires c.timer == 0 && c.len > 0 && !Is(c, TIME_WAIT) && !Is(c, FIN_WAIT_2) && !Is(c, CLOSED)
    ensures var d := c.(timer := 0xff);
      Timer(c, area, calls) ==
        if GivesUp(d) then CallOnly(Enter(d, CLOSED), {TIMEDOUT}, 0, [], area, calls, Emit(RST_ACK, false, []))
        else Rexmit(d.(timer := Backoff(d.nrtx), nrtx := (d.nrtx + 1) % 0x100), area, calls)
  {
  }

  /** The retransmission switch of the timer branch. */
  function Rexmit(c: Conn, area: seq<byte>, calls: seq<AppCall>): (s: Step)
    requires Room(c, area) && Fits(calls, area)
    ensures InBounds(s, area)
  {
    match c.state
    case SYN_RCVD => Step(c, 0, Emit(SYN_ACK, true, []), None)
    case SYN_SENT => Step(c, 0, Emit(SYN, true, []), None)
    case ESTABLISHED =>
      var v := Call(c, {REXMIT}, 0, area, calls);
      var c1 := c.(stopped := v.stopped);
      Step(c1, v.slen, AppRexmit(c1, v.slen, v), Some(Callback(c, {REXMIT}, [])))
    case FIN_WAIT_1 => Step(c, 0, Emit(FIN_ACK, false, []), None)
    case CLOSING => Step(c, 0, Emit(FIN_ACK, false, []), None)
    case LAST_ACK => Step(c, 0, Emit(FIN_ACK, false, []), None)
    case _ => Step(c, 0, Silent, None)
  }

  // ----- poll request (UIP_POLL_REQUEST) -----

  /** uip_slen is not reset on this path: `slen` is what the previous invocation left. */
  function Poll(c: Conn, slen: u16, area: seq<byte>, calls: seq<AppCall>): (s: Step)
    requires Room(c, area) && Fits(calls, area)
    ensures InBounds(s, area)
  {
    if c.state == ESTABLISHED && c.len == 0 then CallAndSend(c, {POLL}, slen, [], area, calls)
    else Step(c, slen, Silent, None)
  }

  // ----- round-trip estimation -----

  /** A value stored into a `signed char`. */
  function SignedChar(x: int): (r: int)
    ensures -0x80 <= r < 0x80
    decreases x < -0x80, if x < 0 then -x else x + 1
  {
    if x < -0x80 then SignedChar(x + 0x100) else if x < 0x80 then x else SignedChar(x - 0x100)
  }

  /** A value stored into a u8_t. */
  function U8(x: int): (r: byte)
    decreases x < 0, if x < 0 then -x else x
  {
    if x < 0 then U8(x + 0x100) else if x < 0x100 then x else U8(x - 0x100)
  }

  datatype Rtt = Rtt(sa: byte, sv: byte, rto: byte)

  /** Van Jacobson's estimator on a sample of `sample` ticks. */
  function Estimate(r: Rtt, sample: int): Rtt
  {
    var m := SignedChar(SignedChar(sample) - r.sa / 8);
    var sa := U8(r.sa + m);
    var a := SignedChar(if m < 0 then -m else m);
    var sv := U8(r.sv + SignedChar(a - r.sv / 4));
    Rtt(sa, sv, U8(sa / 8 + sv))
  }

  // ----- incoming segment for a connection (label `found`) -----

  /** The segment acknowledges all that is outstanding. */
  ghost predicate Acks(c: Conn, seg: Segment) {
    seg.flags.ack && c.len > 0 && seg.ackno == Plus(c.sndNxt, c.len)
  }

  ghost function TakeAck(c: Conn): Conn {
    var r := if c.nrtx == 0 then Estimate(Rtt(c.sa, c.sv, c.rto), c.rto - c.timer) else Rtt(c.sa, c.sv, c.rto);
    c.(sndNxt := Plus(c.sndNxt, c.len), sa := r.sa, sv := r.sv, rto := r.rto, timer := r.rto, len := 0)
  }

  ghost function Received(c: Conn, n: nat): Conn {
    c.(rcvNxt := Plus(c.rcvNxt, n))
  }

  /** The segment is not the next one in sequence, and its sequence number matters. */
  predicate OutOfOrder(c: Conn, seg: Segment) {
    && !(c.state == SYN_SENT && seg.flags == SYN_ACK)
    && (DataLen(seg) > 0 || seg.flags.syn || seg.flags.fin)
    && seg.seqno != c.rcvNxt
  }

  const PureAck := Emit(ACK, false, [])

  ghost function Arrive(c: Conn, slen: u16, seg: Segment, area: seq<byte>, calls: seq<AppCall>, tcpMss: u16): (s: Step)
    requires Room(c, area) && Fits(calls, area) && tcpMss <= |area|
    ensures InBounds(s, area)
  {
    if seg.flags.rst then CallOnly(Enter(c, CLOSED), {ABORT}, slen, [], area, calls, Silent)
    else if OutOfOrder(c, seg) then Step(c, slen, PureAck, None)
    else
      var acked := Acks(c, seg);
      var c1 := if acked then TakeAck(c) else c;
      InState(c1, acked, slen, seg, area, calls, tcpMss)
  }

  /** The active side once its SYN is answered with a SYN|ACK. */
  ghost function Synchronized(c: Conn, seg: Segment, area: seq<byte>, tcpMss: u16): Conn
    requires 44 <= |area|
  {
    Enter(WithMss(c, MssOption(seg.doff, area), tcpMss), ESTABLISHED).(rcvNxt := Plus(seg.seqno, 1), len := 0)
  }

  /** The switch on the connection state; `acked` is the UIP_ACKDATA flag. */
  ghost function InState(c: Conn, acked: bool, slen: u16, seg: Segment, area: seq<byte>, calls: seq<AppCall>,
                         tcpMss: u16): (s: Step)
    requires Room(c, area) && Fits(calls, area) && tcpMss <= |area|
    ensures InBounds(s, area)
  {
    var n := DataLen(seg);
    match c.state
    case CLOSED => Step(c, slen, Silent, None)
    case SYN_RCVD =>
      if acked then
        var c1 := Enter(c, ESTABLISHED).(len := 0);
        CallAndSend(if n > 0 then Received(c1, n) else c1,
                    if n > 0 then {CONNECTED, NEWDATA} else {CONNECTED}, 0,
                    if n > 0 then Shown(area, 0, n) else [], area, calls)
      else Step(c, slen, Silent, None)
    case SYN_SENT =>
      if acked && seg.flags == SYN_ACK then
        var c1 := Synchronized(c, seg, area, tcpMss);
        CallAndSend(c1, {CONNECTED, NEWDATA}, 0, [], area, calls)
      else
        var r := CallOnly(c, {ABORT}, slen, [], area, calls, Bounce);
        r.(c := Enter(r.c, CLOSED))
    case ESTABLISHED => InEstablished(c, acked, slen, seg, area, calls)
    case FIN_WAIT_1 =>
      var c1 := if n > 0 then Received(c, n) else c;
      if seg.flags.fin then
        var c2 := if acked then Enter(c1, TIME_WAIT).(timer := 0, len := 0) else Enter(c1, CLOSING);
        CallOnly(Received(c2, 1), {CLOSE}, slen, [], area, calls, PureAck)
      else if acked then Step(Enter(c1, FIN_WAIT_2).(len := 0), slen, Silent, None)
      else Step(c1, slen, if n > 0 then PureAck else Silent, None)
    case FIN_WAIT_2 =>
      var c1 := if n > 0 then Received(c, n) else c;
      if seg.flags.fin then
        CallOnly(Received(Enter(c1, TIME_WAIT).(timer := 0), 1), {CLOSE}, slen, [], area, calls, PureAck)
      else Step(c1, slen, if n > 0 then PureAck else Silent, None)
    case CLOSING => Step(if acked then Enter(c, TIME_WAIT).(timer := 0) else c, slen, Silent, None)
    case TIME_WAIT => Step(c, slen, PureAck, None)
    case LAST_ACK =>
      if acked then CallOnly(Enter(c, CLOSED), {CLOSE}, slen, [], area, calls, Silent)
      else Step(c, slen, Silent, None)
  }

  /** Where the data shown to the application starts: urgent data is skipped. */
  function DataFrom(seg: Segment): u16 {
    if seg.flags.urg then seg.urgp else 0
  }

  /** The number of bytes an established connection accepts from a segment without FIN. */
  function Accepted(c: Conn, seg: Segment): u16 {
    if c.stopped then 0 else Minus16(DataLen(seg), DataFrom(seg))
  }

  function TakeWindow(c: Conn, wnd: u16): Conn {
    c.(mss := if wnd > c.initialmss || wnd == 0 then c.initialmss else wnd)
  }

  /** What an established connection takes from a segment before the application is called. */
  ghost function Absorbed(c: Conn, seg: Segment): Conn {
    var n := Accepted(c, seg);
    TakeWindow(if n > 0 then Received(c, n) else c, seg.wnd)
  }

  ghost function InEstablished(c: Conn, acked: bool, slen: u16, seg: Segment, area: seq<byte>,
                               calls: seq<AppCall>): (s: Step)
    requires Room(c, area) && Fits(calls, area)
    ensures InBounds(s, area) && s.out != Bounce
  {
    var ackFlag := if acked then {ACKDATA} else {};
    if seg.flags.fin && !c.stopped then
      if c.len > 0 then Step(c, slen, Silent, None)
      else
        var n := DataLen(seg);
        var r := CallOnly(Received(c, if n == 0xffff then 0 else 1 + n),
                          ackFlag + {CLOSE} + (if n > 0 then {NEWDATA} else {}), slen,
                          if n > 0 then Shown(area, 0, n) else [], area, calls, Emit(FIN_ACK, false, []));
        r.(c := Enter(r.c, LAST_ACK).(len := 1, nrtx := 0))
    else
      var n := Accepted(c, seg);
      if n > 0 || acked then
        CallAndSend(Absorbed(c, seg), ackFlag + (if n > 0 then {NEWDATA} else {}), 0,
                    if n > 0 then Shown(area, DataFrom(seg), n) else [], area, calls)
      else Step(Absorbed(c, seg), slen, Silent, None)
  }

  /** The same for a segment whose FIN, if any, does not count, by the flags after it is absorbed. */
  lemma InEstablishedByFlags(c: Conn, s: Step, acked: bool, slen: u16, seg: Segment, area: seq<byte>,
                             calls: seq<AppCall>, flags: set<Flag>)
    requires Room(c, area) && Fits(calls, area) && (!seg.flags.fin || c.stopped)
    requires flags == (if acked then {ACKDATA} else {}) + if Accepted(c, seg) > 0 then {NEWDATA} else {}
    requires s == InEstablished(c, acked, slen, seg, area, calls)
    ensures s ==
      if NEWDATA in flags || ACKDATA in flags then
        CallAndSend(Absorbed(c, seg), flags, 0,
                    if NEWDATA in flags then Shown(area, DataFrom(seg), Accepted(c, seg)) else [], area, calls)
      else Step(Absorbed(c, seg), slen, Silent, None)
  {
  }

  function Minus16(x: u16, y: u16): u16 {
    if x < y then x - y + 0x1_0000 else x - y
  }

  // ----- the MSS option -----

  /** Addition on u8_t. */
  function Add8(x: byte, y: byte): (r: byte)
    ensures x + y < 0x100 ==> r == x + y
  {
    if x + y < 0x100 then x + y else x + y - 0x100
  }

  /** The number of option bytes of a header. */
  function OptionBytes(doff: nibble): (n: nat)
    ensures n <= 40
  {
    if doff > 5 then (doff - 5) * 4 else 0
  }

  /** One round of the option loop with its 8-bit cursor at c: the next cursor, or None if the loop ends. */
  function NextCursor(area: seq<byte>, limit: nat, c: byte): (r: Option<byte>)
    requires 44 <= |area| && limit <= 40
    ensures r.Some? ==> c < limit
  {
    if c >= limit || area[c] == 0 then None
    else if area[c] == 1 then Some(Add8(c, 1))
    else if area[c] == 2 && area[c + 1] == 4 then None
    else if area[c + 1] == 0 then None
    else Some(Add8(c, area[c + 1]))
  }

  /** From cursor c the loop ends in the given number of rounds at most. */
  predicate EndsWithin(area: seq<byte>, limit: nat, c: byte, rounds: nat)
    requires 44 <= |area| && limit <= 40
    decreases rounds
  {
    rounds > 0 && var next := NextCursor(area, limit, c);
      next == None || EndsWithin(area, limit, next.value, rounds - 1)
  }

  /** The option loop ends; if it does, then in one round more than there are option bytes (see TcpOptions). */
  predicate OptionsEnd(doff: nibble, area: seq<byte>)
    requires 44 <= |area|
  {
    EndsWithin(area, OptionBytes(doff), 0, OptionBytes(doff) + 1)
  }

  /** The MSS option at cursor c. */
  function MssAt(area: seq<byte>, limit: nat, c: byte): Option<u16>
    requires 44 <= |area| && limit <= 40
  {
    if c < limit && area[c] == 2 && area[c + 1] == 4 then Some((area[c + 2] as int) * 0x100 + area[c + 3]) else None
  }

  function ScanOptions(area: seq<byte>, limit: nat, c: byte, rounds: nat): Option<u16>
    requires 44 <= |area| && limit <= 40
    decreases rounds
  {
    if rounds == 0 then None
    else match NextCursor(area, limit, c)
      case None => MssAt(area, limit, c)
      case Some(next) => ScanOptions(area, limit, next, rounds - 1)
  }

  /** The value of the MSS option of a SYN: the option at which the loop ends. */
  function MssOption(doff: nibble, area: seq<byte>): Option<u16>
    requires 44 <= |area|
  {
    ScanOptions(area, OptionBytes(doff), 0, OptionBytes(doff) + 1)
  }

  function WithMss(c: Conn, opt: Option<u16>, tcpMss: u16): Conn {
    match opt
    case None => c
    case Some(m) => c.(initialmss := Min(m, tcpMss), mss := Min(m, tcpMss))
  }

  // ----- segments on the wire -----

  /** The segment a connection emits: label `tcp_send`. */
  function Compose(c: Conn, host: Addr, tcpMss: u16, flags: Ctl, syn: bool, payload: seq<byte>): Segment
    requires |payload| < 0xff00
  {
    var body := if syn then [2, 4, tcpMss / 0x100, tcpMss % 0x100] else payload;
    Segment(host, c.ripaddr, c.lport, c.rport, c.sndNxt, c.rcvNxt, if syn then 6 else 5, flags,
            if c.stopped then 0 else tcpMss, 0, 40 + |body|, body)
  }

  /** The incoming segment turned round: label `reset`. */
  ghost function ResetOf(seg: Segment, host: Addr): Segment {
    Segment(host, seg.src, seg.dport, seg.sport, seg.ackno, Plus(seg.seqno, 1), 5, RST_ACK, seg.wnd, 0, 40, [])
  }

  // ----- the connection table -----

  datatype Engine = Engine(conns: seq<Conn>, ports: seq<u16>, iss: Quad, slen: u16, lastport: u16)

  datatype Result = Result(e: Engine, out: Option<Segment>, call: Option<Callback>)

  predicate Matches(c: Conn, seg: Segment) {
    !Is(c, CLOSED) && seg.dport == c.lport && seg.sport == c.rport && seg.src == c.ripaddr
  }

  /** The first connection the segment belongs to, or |conns|. */
  function FindConn(conns: seq<Conn>, seg: Segment): (i: nat)
    ensures i <= |conns|
    ensures i < |conns| ==> Matches(conns[i], seg)
    ensures forall k :: 0 <= k < i ==> !Matches(conns[k], seg)
  {
    if conns == [] || Matches(conns[0], seg) then 0 else 1 + FindConn(conns[1..], seg)
  }

  /** The slot a new connection takes after scanning the first i slots, or -1: the first CLOSED
      slot, else the TIME_WAIT slot that has waited longest. */
  function Slot(conns: seq<Conn>, i: nat): (k: int)
    requires i <= |conns|
    ensures -1 <= k < i
  {
    if i == 0 then -1
    else
      var k := Slot(conns, i - 1);
      if k >= 0 && Is(conns[k], CLOSED) then k
      else if Is(conns[i - 1], CLOSED) then i - 1
      else if Is(conns[i - 1], TIME_WAIT) && (k < 0 || conns[i - 1].timer > conns[k].timer) then i - 1
      else k
  }

  /** A slot filled in for a SYN: label `found_listen`. */
  ghost function Accept(c: Conn, seg: Segment, iss: Quad, area: seq<byte>, tcpMss: u16): Conn
    requires 44 <= |area|
  {
    WithMss(Conn(seg.src, seg.dport, seg.sport, Plus(seg.seqno, 1), iss, 1, c.mss, c.initialmss,
                 0, 4, RTO, SYN_RCVD, false, RTO, 0),
            MssOption(seg.doff, area), tcpMss)
  }

  /** A slot filled in by uip_connect. */
  function Open(c: Conn, ripaddr: Addr, rport: u16, lport: u16, iss: Quad, tcpMss: u16): Conn {
    Conn(ripaddr, lport, rport, c.rcvNxt, iss, 1, tcpMss, tcpMss, 0, 16, RTO, SYN_SENT, false, 1, 0)
  }

  ghost function OnWire(s: Step, seg: Option<Segment>, host: Addr, tcpMss: u16): Option<Segment>
    requires s.out.Emit? ==> |s.out.payload| < 0xff00
  {
    match s.out
    case Silent => None
    case Emit(flags, syn, payload) => Some(Compose(s.c, host, tcpMss, flags, syn, payload))
    case Bounce => if seg.Some? && !seg.value.flags.rst then Some(ResetOf(seg.value, host)) else None
  }

  /** The engine comes to an end with a segment for connection c: if it reads the options, their loop ends. */
  ghost predicate Returns(c: Conn, seg: Segment, area: seq<byte>)
    requires 44 <= |area|
  {
    c.state == SYN_SENT && seg.flags == SYN_ACK && Acks(c, seg) ==> OptionsEnd(seg.doff, area)
  }

  ghost predicate InputReturns(e: Engine, seg: Segment, area: seq<byte>)
    requires 44 <= |area|
  {
    var i := FindConn(e.conns, seg);
    if i < |e.conns| then Returns(e.conns[i], seg, area)
    else seg.flags == SYN && seg.dport in e.ports && Slot(e.conns, |e.conns|) >= 0 ==> OptionsEnd(seg.doff, area)
  }

  predicate RoomAll(conns: seq<Conn>, area: seq<byte>) {
    |area| < 0xff00 && forall c <- conns :: Room(c, area)
  }

  /** A TCP segment that passed the checksum tests: label `tcp_input`. */
  ghost function Input(e: Engine, seg: Segment, area: seq<byte>, calls: seq<AppCall>, host: Addr, tcpMss: u16): Result
    requires RoomAll(e.conns, area) && Fits(calls, area) && tcpMss <= |area| && 44 <= |area|
  {
    var i := FindConn(e.conns, seg);
    if i < |e.conns| then
      var s := Arrive(e.conns[i], e.slen, seg, area, calls, tcpMss);
      Result(e.(conns := e.conns[i := s.c], slen := s.slen), OnWire(s, Some(seg), host, tcpMss), s.call)
    else if seg.flags != SYN || seg.dport !in e.ports then
      Result(e, if seg.flags.rst then None else Some(ResetOf(seg, host)), None)
    else
      var k := Slot(e.conns, |e.conns|);
      if k < 0 then Result(e, None, None)
      else
        var c := Accept(e.conns[k], seg, e.iss, area, tcpMss);
        Result(e.(conns := e.conns[k := c]), Some(Compose(c, host, tcpMss, SYN_ACK, true, [])), None)
  }

  // ----- active opens and listening ports -----

  function NextPort(p: u16): (q: u16)
    ensures p < 32000 ==> q < 32000
  {
    var q := (p + 1) % 0x1_0000;
    if q >= 32000 then 4096 else q
  }

  predicate PortUsed(conns: seq<Conn>, p: u16) {
    exists c <- conns :: !Is(c, CLOSED) && c.lport == p
  }

  /** The first unused candidate after p, looking at n + 1 of them at most. */
  function FreePort(conns: seq<Conn>, p: u16, n: nat): (q: u16)
    ensures p < 32000 ==> q < 32000
    decreases n
  {
    if n > 0 && PortUsed(conns, NextPort(p)) then FreePort(conns, NextPort(p), n - 1) else NextPort(p)
  }

  /** uip_connect. */
  function ConnectTo(e: Engine, ripaddr: Addr, rport: u16, tcpMss: u16): Engine
  {
    var e1 := e.(lastport := FreePort(e.conns, e.lastport, |e.conns|));
    var k := Slot(e.conns, |e.conns|);
    if k < 0 then e1
    else e1.(conns := e.conns[k := Open(e.conns[k], ripaddr, rport, e1.lastport, e.iss, tcpMss)])
  }

  function Update(ports: seq<u16>, old_: u16, new_: u16): (r: seq<u16>)
    ensures |r| == |ports|
  {
    if ports == [] then []
    else if ports[0] == old_ then [new_] + ports[1..]
    else [ports[0]] + Update(ports[1..], old_, new_)
  }
}
