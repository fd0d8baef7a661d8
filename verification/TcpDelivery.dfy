/** Two uIP endpoints over a channel that loses, duplicates and reorders segments: what one
    application is given is always a prefix of what the other one submitted (sections 3.3 and
    3.9 of RFC 793). */
module TcpDelivery {
  import opened Bytes
  import opened Tcp
  import opened TcpTable

  // ----- endpoints, with the history of one connection incarnation -----

  /** One side of a connection. Its own stream counts the SYN as unit 0, the submitted bytes as
      units 1, 2, ..., and the FIN as the last unit. */
  datatype Endpoint = Endpoint(
    c: Conn,
    born: bool,            // a passive side has no connection before the SYN arrives
    active: bool,          // opened by uip_connect
    iss: Quad,
    sent: seq<byte>,       // bytes the application submitted and the engine accepted
    fin: bool,             // the FIN has been sent
    rcv: nat,              // units of the other stream received in sequence
    delivered: seq<byte>)  // bytes shown to the application

  /** Units of the own stream handed to the network so far, and those acknowledged. */
  function Total(x: Endpoint): nat {
    1 + |x.sent| + if x.fin then 1 else 0
  }

  function Una(x: Endpoint): int {
    Total(x) - x.c.len
  }

  /** Submitted bytes that have been acknowledged. */
  function AckedBytes(x: Endpoint): int {
    if Una(x) <= 0 then 0 else Min(Una(x) - 1, |x.sent|)
  }

  /** The bytes an established endpoint has in flight. */
  function Outstanding(x: Endpoint): seq<byte> {
    if x.c.len <= |x.sent| then x.sent[|x.sent| - x.c.len..] else []
  }

  /** A segment on the channel, with the unit it starts at in its sender's stream and the number
      of units of the other stream its sender had received. */
  datatype Flight = Flight(k: int, m: nat, seg: Segment)

  // ----- what the application submits, and what it owes -----

  /** The data of the last uip_send with a positive length. */
  function Submission(calls: seq<AppCall>): seq<byte>
    decreases |calls|
  {
    if calls == [] then []
    else
      var rest := Submission(calls[1..]);
      if rest != [] then rest else if calls[0].Send? then calls[0].data else []
  }

  /** The application's contract in a callback: it leaves no connection stopped that is over, and while
      data is unacknowledged it does not close, and if it sends, it sends the same bytes. */
  predicate Polite(call: Callback, v: AppView, calls: seq<AppCall>, outstanding: seq<byte>) {
    && StopHarmless(Some(call), calls)
    && (call.c.state == ESTABLISHED && call.c.len > 0 ==>
          Close !in calls && (v.slen > 0 ==> v.area[..Min(call.c.len, |v.area|)] == outstanding))
  }

  /** The state after the callback of a step, given uip_slen before it. */
  function ViewAfter(call: Callback, slen: u16, turn: Turn): AppView
    requires Fits(turn.calls, turn.area)
  {
    Call(call.c, call.flags, slen, turn.area, turn.calls)
  }

  /** The surroundings are those of a connection of a stack with the given segment size. */
  predicate Equipped(c: Conn, turn: Turn, tcpMss: u16) {
    Able(c, turn) && 4 <= tcpMss <= |turn.area| < 0xff00
  }

  // ----- moves of one endpoint -----

  function Distance(p: Quad, q: Quad): nat {
    Wrap(Value(q) + 0x1_0000_0000 - Value(p))
  }

  /** The bytes of a step that are submitted for the first time. */
  function NewChunk(s: Step, calls: seq<AppCall>): seq<byte> {
    if s.out.Emit? && s.out.payload != [] && s.call.Some? && s.call.value.c.len == 0 then
      Submission(calls)[..Min(|s.out.payload|, |Submission(calls)|)]
    else []
  }

  function Shows(s: Step): seq<byte> {
    if s.call.Some? && NEWDATA in s.call.value.flags then s.call.value.data else []
  }

  /** The endpoint after the engine took step s. */
  function Moved(x: Endpoint, s: Step, calls: seq<AppCall>): Endpoint {
    Endpoint(s.c, x.born, x.active, x.iss,
             x.sent + NewChunk(s, calls),
             x.fin || s.c.state in {FIN_WAIT_1, LAST_ACK},
             if x.c.state == SYN_SENT then (if s.call.Some? && CONNECTED in s.call.value.flags then 1 else 0)
             else x.rcv + Distance(x.c.rcvNxt, s.c.rcvNxt),
             x.delivered + Shows(s))
  }

  /** The segment a step puts on the channel, if any. */
  ghost function Launched(x': Endpoint, s: Step, seg: Option<Segment>, host: Addr, tcpMss: u16): set<Flight>
    requires s.out.Emit? ==> |s.out.payload| < 0xff00
  {
    match OnWire(s, seg, host, tcpMss)
    case None => {}
    case Some(out) => {Flight(Una(x'), x'.rcv, out)}
  }

  // ----- invariant -----

  predicate StateOk(x: Endpoint) {
    && (x.c.stopped ==> x.c.state == ESTABLISHED)
    && (match x.c.state
        case CLOSED => true
        case SYN_SENT => x.active && x.sent == [] && !x.fin && x.c.len == 1 && x.rcv == 0
        case SYN_RCVD => !x.active && x.sent == [] && !x.fin && x.c.len == 1 && x.rcv == 1 && x.delivered == []
        case ESTABLISHED => !x.fin && x.c.len <= |x.sent| && x.rcv >= 1
        case FIN_WAIT_1 => x.fin && x.c.len == 1 && x.rcv >= 1
        case CLOSING => x.fin && x.c.len == 1 && x.rcv >= 1
        case LAST_ACK => x.fin && x.c.len == 1 && x.rcv >= 1
        case FIN_WAIT_2 => x.fin && x.c.len == 0 && x.rcv >= 1
        case TIME_WAIT => x.fin && x.c.len == 0 && x.rcv >= 1)
  }

  ghost predicate Local(x: Endpoint) {
    if x.born then StateOk(x) && Stream(x)
    else !x.active && x.c.state == CLOSED && !x.c.stopped && x.rcv == 0 && x.delivered == [] && x.sent == [] && !x.fin
  }

  ghost predicate Stream(x: Endpoint) {
    && 0 <= Una(x) && Total(x) < 0x1_0000_0000
    && (Una(x) == 0 ==> Total(x) == 1)
    && x.c.sndNxt == Plus(x.iss, Una(x))
  }

  /** f carries a part of x's stream, whole chunks only. */
  ghost predicate Carries(x: Endpoint, f: Flight) {
    var n := DataLen(f.seg);
    && 0 <= f.k <= Una(x)
    && f.seg.seqno == Plus(x.iss, f.k)
    && !f.seg.flags.urg
    && (f.seg.flags.syn ==> f.k == 0 && n == 0 && f.seg.flags == (if x.active then SYN else SYN_ACK))
    && (f.seg.flags.fin ==> n == 0 && x.fin && f.k == 1 + |x.sent|)
    && (n > 0 ==>
          && 1 <= f.k && f.k - 1 + n <= |x.sent|
          && n == |f.seg.body| && f.seg.body == x.sent[f.k - 1..f.k - 1 + n]
          && (f.k + n <= Una(x) || (f.k == Una(x) && n == x.c.len)))
  }

  /** What the segments from x say about x's stream, and what y has of it. */
  ghost predicate Out(x: Endpoint, y: Endpoint, xy: set<Flight>) {
    && (forall f <- xy :: f.seg.flags.rst || (x.born && Carries(x, f)))
    && (if x.born then y.rcv == Una(x) || y.rcv == Total(x) else y.rcv == 0)
    && (y.rcv == 0 ==> y.delivered == [])
    && (y.rcv > 0 ==> y.c.rcvNxt == Plus(x.iss, y.rcv) && 1 + |y.delivered| <= y.rcv)
    && y.delivered <= x.sent
    && (y.c.state in {SYN_RCVD, ESTABLISHED} ==> y.rcv == 1 + |y.delivered|)
    && (y.c.state == LAST_ACK ==> x.fin && y.delivered == x.sent)
  }

  /** The acknowledgements from x name units of y's stream that x has. */
  ghost predicate AcksOk(x: Endpoint, y: Endpoint, xy: set<Flight>) {
    forall f <- xy :: f.seg.flags.rst || !f.seg.flags.ack ||
      (1 <= f.m <= x.rcv && f.seg.ackno == Plus(y.iss, f.m))
  }

  /** The invariant, for x on one side and y on the other. */
  ghost predicate Linked(x: Endpoint, y: Endpoint, xy: set<Flight>, yx: set<Flight>) {
    x.active != y.active && Local(x) && Local(y) && Out(x, y, xy) && Out(y, x, yx) && AcksOk(x, y, xy) &&
      AcksOk(y, x, yx)
  }

  // ----- the sending side -----

  /** x's outstanding data has been acknowledged. */
  lemma SenderAcked(x: Endpoint, x': Endpoint, y: Endpoint, xy: set<Flight>)
    requires Out(x, y, xy) && x.born && y.rcv == Total(x)
    requires x' == x.(c := x'.c) && x'.c.len == 0
    ensures Out(x', y, xy)
  {
  }

  lemma ChunkCarries(x: Endpoint, x': Endpoint, f: Flight, d: seq<byte>)
    requires Carries(x, f) && x.c.len == 0 && !x.fin
    requires x' == x.(c := x'.c, sent := x.sent + d) && x'.c.len == |d|
    ensures Carries(x', f)
  {
    if DataLen(f.seg) > 0 {
      assert x'.sent[f.k - 1..f.k - 1 + DataLen(f.seg)] == x.sent[f.k - 1..f.k - 1 + DataLen(f.seg)];
    }
  }

  /** x, with nothing outstanding, sends new bytes d. */
  lemma SenderChunk(x: Endpoint, x': Endpoint, y: Endpoint, xy: set<Flight>, d: seq<byte>)
    requires Out(x, y, xy) && x.born && x.c.len == 0 && !x.fin
    requires x' == x.(c := x'.c, sent := x.sent + d) && x'.c.len == |d|
    ensures Out(x', y, xy)
  {
    forall f <- xy
      ensures f.seg.flags.rst || Carries(x', f)
    {
      if !f.seg.flags.rst {
        ChunkCarries(x, x', f, d);
      }
    }
  }

  /** x, with nothing outstanding, sends its FIN. */
  lemma SenderFin(x: Endpoint, x': Endpoint, y: Endpoint, xy: set<Flight>)
    requires Out(x, y, xy) && x.born && x.c.len == 0 && !x.fin
    requires x' == x.(c := x'.c, fin := true) && x'.c.len == 1
    ensures Out(x', y, xy)
  {
  }

  // ----- the receiving side -----

  /** In-order data is the outstanding chunk of the other side, all of it. */
  lemma NextChunk(y: Endpoint, x: Endpoint, yx: set<Flight>, f: Flight)
    requires Out(y, x, yx) && f in yx && !f.seg.flags.rst && Local(y) && x.rcv > 0
    requires DataLen(f.seg) > 0 && f.seg.seqno == x.c.rcvNxt
    ensures f.k == x.rcv == Una(y) && DataLen(f.seg) == y.c.len && !f.seg.flags.syn && !f.seg.flags.fin
    ensures x.rcv - 1 + DataLen(f.seg) <= |y.sent| && f.seg.body == y.sent[x.rcv - 1..x.rcv - 1 + DataLen(f.seg)]
  {
    assert Carries(y, f);
    PlusInjective(y.iss, f.k, x.rcv);
  }

  lemma NextFin(y: Endpoint, x: Endpoint, yx: set<Flight>, f: Flight)
    requires Out(y, x, yx) && f in yx && !f.seg.flags.rst && Local(y) && x.rcv > 0
    requires f.seg.flags.fin && f.seg.seqno == x.c.rcvNxt
    ensures f.k == x.rcv == Una(y) == 1 + |y.sent| && y.c.len == 1 && DataLen(f.seg) == 0
  {
    assert Carries(y, f);
    PlusInjective(y.iss, f.k, x.rcv);
  }

  /** x takes the next n units: it delivers them, or it no longer counts what it delivers. */
  lemma ReceiverTakes(y: Endpoint, x: Endpoint, x': Endpoint, yx: set<Flight>, n: nat, d: seq<byte>)
    requires Out(y, x, yx) && y.born && x.rcv > 0
    requires x.rcv + n == Total(y)
    requires x'.rcv == x.rcv + n && x'.c.rcvNxt == Plus(x.c.rcvNxt, n) && x'.delivered == x.delivered + d && |d| <= n
    requires x'.delivered <= y.sent
    requires x'.c.state in {SYN_RCVD, ESTABLISHED} ==> x.rcv == 1 + |x.delivered| && |d| == n
    requires x'.c.state == LAST_ACK ==> y.fin && x'.delivered == y.sent
    ensures Out(y, x', yx)
  {
    PlusPlus(y.iss, x.rcv, n);
  }

  /** x acknowledged everything y acts on: the acknowledgement names all of x's units. */
  lemma AckMeansAll(y: Endpoint, x: Endpoint, yx: set<Flight>, xy: set<Flight>, f: Flight)
    requires Linked(x, y, xy, yx) && x.born && f in yx && !f.seg.flags.rst && Acks(x.c, f.seg)
    ensures y.rcv == Total(x) && Total(x) == Una(x) + x.c.len
  {
    PlusPlus(x.iss, Una(x), x.c.len);
    assert f.seg.ackno == Plus(x.iss, Total(x));
    PlusInjective(x.iss, f.m, Total(x));
  }

  lemma DistanceOfPlus(p: Quad, n: nat)
    requires n < 0x1_0000_0000
    ensures Distance(p, Plus(p, n)) == n && Distance(p, p) == 0
  {
  }

  // ----- emissions -----

  /** What a connection in the state of x may emit. */
  predicate MayEmit(x: Endpoint, flags: Ctl, syn: bool, payload: seq<byte>) {
    || flags == RST_ACK
    || (flags == ACK && !syn && payload == [] && x.rcv >= 1)
    || (flags == ACK_PSH && !syn && payload != [] && x.rcv >= 1 && x.c.len == |payload| && x.c.state == ESTABLISHED
        && payload == Outstanding(x))
    || (flags == FIN_ACK && !syn && payload == [] && x.rcv >= 1 && x.fin && x.c.len == 1)
    || (flags == SYN && syn && x.c.state == SYN_SENT)
    || (flags == SYN_ACK && syn && x.c.state == SYN_RCVD)
  }

  lemma ComposedLen(c: Conn, host: Addr, tcpMss: u16, flags: Ctl, syn: bool, payload: seq<byte>)
    requires |payload| < 0xff00
    ensures DataLen(Compose(c, host, tcpMss, flags, syn, payload)) == if syn then 0 else |payload|
  {
  }

  lemma DataCarries(x: Endpoint, f: Flight)
    requires Local(x) && x.born && x.c.state == ESTABLISHED
    requires f.k == Una(x) && f.seg.seqno == x.c.sndNxt && f.seg.flags == ACK_PSH
    requires DataLen(f.seg) == |f.seg.body| == x.c.len && f.seg.body == Outstanding(x)
    ensures Carries(x, f)
  {
    assert x.sent[|x.sent| - x.c.len..] == x.sent[f.k - 1..f.k - 1 + x.c.len];
  }

  lemma ControlCarries(x: Endpoint, f: Flight)
    requires Local(x) && x.born
    requires f.k == Una(x) && f.seg.seqno == x.c.sndNxt && DataLen(f.seg) == 0
    requires
      || f.seg.flags == ACK
      || (f.seg.flags == FIN_ACK && x.fin && x.c.len == 1)
      || (f.seg.flags == SYN && x.c.state == SYN_SENT)
      || (f.seg.flags == SYN_ACK && x.c.state == SYN_RCVD)
    ensures Carries(x, f)
  {
  }

  lemma EmitCarries(x: Endpoint, host: Addr, tcpMss: u16, flags: Ctl, syn: bool, payload: seq<byte>)
    requires Local(x) && x.born && |payload| < 0xff00 && MayEmit(x, flags, syn, payload) && !flags.rst
    ensures Carries(x, Flight(Una(x), x.rcv, Compose(x.c, host, tcpMss, flags, syn, payload)))
    ensures flags.ack ==> x.rcv >= 1
  {
    var f := Flight(Una(x), x.rcv, Compose(x.c, host, tcpMss, flags, syn, payload));
    ComposedLen(x.c, host, tcpMss, flags, syn, payload);
    if flags == ACK_PSH {
      DataCarries(x, f);
    } else {
      ControlCarries(x, f);
    }
  }

  lemma EmitKeeps(x: Endpoint, y: Endpoint, xy: set<Flight>, yx: set<Flight>,
                  host: Addr, tcpMss: u16, flags: Ctl, syn: bool, payload: seq<byte>)
    requires Linked(x, y, xy, yx) && x.born && |payload| < 0xff00 && MayEmit(x, flags, syn, payload)
    ensures Linked(x, y, xy + {Flight(Una(x), x.rcv, Compose(x.c, host, tcpMss, flags, syn, payload))}, yx)
  {
    if !flags.rst {
      EmitCarries(x, host, tcpMss, flags, syn, payload);
    }
    LaunchKeeps(x, y, xy, yx, Flight(Una(x), x.rcv, Compose(x.c, host, tcpMss, flags, syn, payload)));
  }

  lemma LaunchKeeps(x: Endpoint, y: Endpoint, xy: set<Flight>, yx: set<Flight>, f: Flight)
    requires Linked(x, y, xy, yx)
    requires f.seg.flags.rst ||
      (x.born && Carries(x, f) && f.m == x.rcv && f.seg.ackno == x.c.rcvNxt && (f.seg.flags.ack ==> x.rcv >= 1))
    ensures Linked(x, y, xy + {f}, yx)
  {
  }

  // ----- steps of the connection that keep the two sides linked -----

  lemma SameSender(x: Endpoint, x': Endpoint, y: Endpoint, xy: set<Flight>)
    requires Out(x, y, xy) && x' == x.(c := x'.c) && x'.c.len == x.c.len
    ensures Out(x', y, xy)
  {
  }

  lemma SameReceiver(y: Endpoint, x: Endpoint, x': Endpoint, yx: set<Flight>)
    requires Out(y, x, yx) && x' == x.(c := x'.c) && x'.c.rcvNxt == x.c.rcvNxt
    requires x'.c.state in {SYN_RCVD, ESTABLISHED} ==> x.c.state in {SYN_RCVD, ESTABLISHED}
    requires x'.c.state == LAST_ACK ==> x.c.state == LAST_ACK
    ensures Out(y, x', yx)
  {
  }

  /** Changes that concern neither stream; a connection may also be given up. */
  lemma Refresh(x: Endpoint, c: Conn, y: Endpoint, xy: set<Flight>, yx: set<Flight>)
    requires Linked(x, y, xy, yx) && x.born
    requires c.len == x.c.len && c.sndNxt == x.c.sndNxt && c.rcvNxt == x.c.rcvNxt
    requires c.state == x.c.state || c.state == CLOSED
    requires c.stopped ==> c.state == ESTABLISHED
    ensures Linked(x.(c := c), y, xy, yx)
  {
    SameSender(x, x.(c := c), y, xy);
    SameReceiver(y, x, x.(c := c), yx);
  }

  /** The outstanding units are acknowledged, and the connection enters the state that follows. */
  lemma AckKeeps(x: Endpoint, c: Conn, y: Endpoint, xy: set<Flight>, yx: set<Flight>, f: Flight)
    requires Linked(x, y, xy, yx) && x.born && f in yx && !f.seg.flags.rst && Acks(x.c, f.seg)
    requires c.len == 0 && c.sndNxt == Plus(x.c.sndNxt, x.c.len) && c.rcvNxt == x.c.rcvNxt
    requires StateOk(x.(c := c))
    requires c.state in {SYN_RCVD, ESTABLISHED} ==> x.c.state in {SYN_RCVD, ESTABLISHED}
    requires c.state != LAST_ACK
    ensures Linked(x.(c := c), y, xy, yx)
  {
    var x' := x.(c := c);
    AckMeansAll(y, x, yx, xy, f);
    SenderAcked(x, x', y, xy);
    SameReceiver(y, x, x', yx);
    PlusPlus(x.iss, Una(x), x.c.len);
  }

  /** In-order data is taken: delivered while established, discarded after the own FIN. */
  lemma DataKeeps(x: Endpoint, c: Conn, y: Endpoint, xy: set<Flight>, yx: set<Flight>, f: Flight, d: seq<byte>)
    requires Linked(x, y, xy, yx) && x.born && x.rcv > 0 && f in yx && !f.seg.flags.rst
    requires DataLen(f.seg) > 0 && f.seg.seqno == x.c.rcvNxt
    requires c == x.c.(rcvNxt := Plus(x.c.rcvNxt, DataLen(f.seg)), mss := c.mss) &&
      x.c.state !in {CLOSED, SYN_RCVD, LAST_ACK}
    requires d == if x.c.state == ESTABLISHED then f.seg.body else []
    ensures Linked(x.(c := c, rcv := x.rcv + DataLen(f.seg), delivered := x.delivered + d), y, xy, yx)
    ensures DataLen(f.seg) == |f.seg.body| && !f.seg.flags.syn && !f.seg.flags.fin && !f.seg.flags.urg
  {
    var n := DataLen(f.seg);
    var x' := x.(c := c, rcv := x.rcv + n, delivered := x.delivered + d);
    NextChunk(y, x, yx, f);
    assert Carries(y, f);
    ReceiverTakes(y, x, x', yx, n, d);
    SenderUnmoved(x, x', y, xy);
  }

  /** What x has received does not matter to what it sends. */
  lemma SenderUnmoved(x: Endpoint, x': Endpoint, y: Endpoint, xy: set<Flight>)
    requires Out(x, y, xy) && x' == x.(c := x'.c, rcv := x'.rcv, delivered := x'.delivered) && x'.c.len == x.c.len
    ensures Out(x', y, xy)
  {
  }

  /** An in-order FIN is taken. */
  lemma FinKeeps(x: Endpoint, x': Endpoint, y: Endpoint, xy: set<Flight>, yx: set<Flight>, f: Flight)
    requires Linked(x, y, xy, yx) && x.born && x.rcv > 0 && f in yx && !f.seg.flags.rst
    requires f.seg.flags.fin && f.seg.seqno == x.c.rcvNxt
    requires x' == x.(c := x'.c, rcv := x.rcv + 1, fin := x'.fin) && x'.c.rcvNxt == Plus(x.c.rcvNxt, 1)
    requires Out(x', y, xy) && Local(x')
    requires x'.c.state in {CLOSING, TIME_WAIT} || (x'.c.state == LAST_ACK && x.c.state == ESTABLISHED)
    ensures Linked(x', y, xy, yx)
  {
    NextFin(y, x, yx, f);
    assert Carries(y, f);
    ReceiverTakes(y, x, x', yx, 1, []);
  }

  // ----- callbacks -----

  /** What a callback can change of uip_flags, uip_slen and the buffer. */
  lemma {:induction false} RunEffect(v: AppView, calls: seq<AppCall>)
    requires Fits(calls, v.area)
    ensures var v' := Run(v, calls); var sub := Submission(calls);
      && (ACKDATA in v'.flags ==> ACKDATA in v.flags)
      && (CLOSE in v'.flags ==> CLOSE in v.flags || Close in calls)
      && (sub == [] ==> v'.slen == v.slen && v'.area == v.area)
      && (sub != [] ==> v'.slen == |sub| <= |v'.area| && v'.area[..|sub|] == sub)
    decreases |calls|
  {
    if calls != [] {
      RunEffect(Apply(v, calls[0]), calls[1..]);
    }
  }

  /** What becomes of an endpoint whose stream position is already up to date. */
  function Grow(m: Endpoint, s: Step, calls: seq<AppCall>): Endpoint {
    m.(c := s.c, sent := m.sent + NewChunk(s, calls), fin := m.fin || s.c.state in {FIN_WAIT_1, LAST_ACK})
  }

  /** s calls the application of m and sends what it leaves; m' is the result. */
  predicate Sending(m: Endpoint, m': Endpoint, s: Step, flags: set<Flag>, slen: u16, data: seq<byte>, turn: Turn,
                    tcpMss: u16) {
    && Equipped(m.c, turn, tcpMss)
    && s == CallAndSend(m.c, flags, slen, data, turn.area, turn.calls)
    && m' == Grow(m, s, turn.calls)
  }

  /** After any polite callback on an established connection, what the engine sends fits. */
  lemma SendKeeps(m: Endpoint, m': Endpoint, s: Step, y: Endpoint, xy: set<Flight>, yx: set<Flight>,
                  flags: set<Flag>, slen: u16, data: seq<byte>, turn: Turn, host: Addr, tcpMss: u16)
    requires Sending(m, m', s, flags, slen, data, turn, tcpMss)
    requires Linked(m, y, xy, yx) && m.born && m.c.state == ESTABLISHED
    requires CLOSE !in flags && (ACKDATA in flags ==> m.c.len == 0)
    requires slen == 0 || Submission(turn.calls) != []
    requires Polite(Callback(m.c, flags, data), Call(m.c, flags, slen, turn.area, turn.calls), turn.calls,
                    Outstanding(m))
    requires Total(m') < 0x1_0000_0000
    ensures Linked(m', y, xy + Launched(m', s, None, host, tcpMss), yx)
  {
    var v := Call(m.c, flags, slen, turn.area, turn.calls);
    RunEffect(AppView(flags, slen, m.c.stopped, turn.area), turn.calls);
    if ABORT in v.flags || CLOSE in v.flags {
      EndKeeps(m, m', s, y, xy, yx, flags, slen, data, turn, host, tcpMss);
    } else if v.slen > 0 && m.c.len == 0 {
      ChunkKeeps(m, m', s, y, xy, yx, flags, slen, data, turn, host, tcpMss);
    } else {
      ResendKeeps(m, m', s, y, xy, yx, flags, slen, data, turn, host, tcpMss);
    }
  }

  /** The application aborts, or closes with nothing outstanding. */
  lemma EndKeeps(m: Endpoint, m': Endpoint, s: Step, y: Endpoint, xy: set<Flight>, yx: set<Flight>,
                  flags: set<Flag>, slen: u16, data: seq<byte>, turn: Turn, host: Addr, tcpMss: u16)
    requires Sending(m, m', s, flags, slen, data, turn, tcpMss)
    requires Linked(m, y, xy, yx) && m.born && m.c.state == ESTABLISHED
    requires Total(m') < 0x1_0000_0000
    requires var v := Call(m.c, flags, slen, turn.area, turn.calls);
      ABORT in v.flags || (CLOSE in v.flags && m.c.len == 0)
    ensures Linked(m', y, xy + Launched(m', s, None, host, tcpMss), yx)
  {
    assert m'.sent == m.sent;
    if s.out.flags == FIN_ACK {
      SenderFin(m, m', y, xy);
    }
    EmitStep(m', s, y, xy, yx, host, tcpMss);
  }

  /** The application sends nothing new: the old bytes go out again, or an ACK, or nothing. */
  lemma ResendStep(m: Endpoint, m': Endpoint, s: Step, flags: set<Flag>, slen: u16, data: seq<byte>, turn: Turn,
                   tcpMss: u16)
    requires Sending(m, m', s, flags, slen, data, turn, tcpMss) && m.c.state == ESTABLISHED && m.rcv >= 1
    requires var v := Call(m.c, flags, slen, turn.area, turn.calls);
      && ABORT !in v.flags && CLOSE !in v.flags
      && (ACKDATA in v.flags ==> m.c.len == 0)
      && (v.slen > 0 ==> m.c.len > 0 && v.area[..m.c.len] == Outstanding(m))
    ensures s.c.len == m.c.len && s.c.sndNxt == m.c.sndNxt && s.c.rcvNxt == m.c.rcvNxt && s.c.state == ESTABLISHED
    ensures s.out.Silent? || s.out == PureAck || (s.out == Emit(ACK_PSH, false, Outstanding(m)) && m.c.len > 0)
    ensures NewChunk(s, turn.calls) == []
  {
  }

  lemma ResendKeeps(m: Endpoint, m': Endpoint, s: Step, y: Endpoint, xy: set<Flight>, yx: set<Flight>,
                  flags: set<Flag>, slen: u16, data: seq<byte>, turn: Turn, host: Addr, tcpMss: u16)
    requires Sending(m, m', s, flags, slen, data, turn, tcpMss)
    requires Linked(m, y, xy, yx) && m.born && m.c.state == ESTABLISHED
    requires var v := Call(m.c, flags, slen, turn.area, turn.calls);
      && ABORT !in v.flags && CLOSE !in v.flags
      && (ACKDATA in v.flags ==> m.c.len == 0)
      && (v.slen > 0 ==> m.c.len > 0 && v.area[..m.c.len] == Outstanding(m))
    ensures Linked(m', y, xy + Launched(m', s, None, host, tcpMss), yx)
  {
    ResendStep(m, m', s, flags, slen, data, turn, tcpMss);
    assert m.sent + [] == m.sent;
    assert m' == m.(c := s.c);
    Refresh(m, s.c, y, xy, yx);
    EmitStep(m', s, y, xy, yx, host, tcpMss);
  }

  /** Whatever a step may emit keeps the two sides linked. */
  lemma EmitStep(x: Endpoint, s: Step, y: Endpoint, xy: set<Flight>, yx: set<Flight>, host: Addr, tcpMss: u16)
    requires Linked(x, y, xy, yx) && x.born && x.c == s.c && s.out != Bounce
    requires s.out.Emit? ==> |s.out.payload| < 0xff00 && MayEmit(x, s.out.flags, s.out.syn, s.out.payload)
    ensures Linked(x, y, xy + Launched(x, s, None, host, tcpMss), yx)
  {
    if s.out.Emit? {
      EmitKeeps(x, y, xy, yx, host, tcpMss, s.out.flags, s.out.syn, s.out.payload);
    } else {
      assert xy + {} == xy;
    }
  }

  lemma ChunkKeeps(m: Endpoint, m': Endpoint, s: Step, y: Endpoint, xy: set<Flight>, yx: set<Flight>,
                  flags: set<Flag>, slen: u16, data: seq<byte>, turn: Turn, host: Addr, tcpMss: u16)
    requires Sending(m, m', s, flags, slen, data, turn, tcpMss)
    requires Linked(m, y, xy, yx) && m.born && m.c.state == ESTABLISHED && m.c.len == 0
    requires slen == 0 || Submission(turn.calls) != []
    requires Total(m') < 0x1_0000_0000
    requires var v := Call(m.c, flags, slen, turn.area, turn.calls);
      ABORT !in v.flags && CLOSE !in v.flags && v.slen > 0
    ensures Linked(m', y, xy + Launched(m', s, None, host, tcpMss), yx)
  {
    var v := Call(m.c, flags, slen, turn.area, turn.calls);
    RunEffect(AppView(flags, slen, m.c.stopped, turn.area), turn.calls);
    var d := NewChunk(s, turn.calls);
    var sub := Submission(turn.calls);
    assert sub != [] && s.c.len <= |sub| && v.area[..s.c.len] == sub[..s.c.len];
    assert |d| == s.c.len;
    SenderChunk(m, m', y, xy, d);
    assert Outstanding(m') == d;
    EmitStep(m', s, y, xy, yx, host, tcpMss);
  }

  // ----- an incoming segment -----

  predicate PoliteStep(x: Endpoint, s: Step, slen: u16, turn: Turn)
    requires Fits(turn.calls, turn.area)
  {
    s.call.Some? ==> Polite(s.call.value, ViewAfter(s.call.value, slen, turn), turn.calls, Outstanding(x))
  }

  /** The premises shared by the lemmas on an incoming segment: f is on the channel, and the
      buffer holds its body. */
  ghost predicate Arriving(x: Endpoint, y: Endpoint, xy: set<Flight>, yx: set<Flight>, f: Flight, turn: Turn,
                           tcpMss: u16) {
    && Linked(x, y, xy, yx) && x.born && x.c.state != CLOSED && f in yx
    && Equipped(x.c, turn, tcpMss) && f.seg.body <= turn.area
  }

  lemma CallAndSendFrame(c: Conn, flags: set<Flag>, slen: u16, data: seq<byte>, area: seq<byte>, calls: seq<AppCall>)
    requires Room(c, area) && Fits(calls, area)
    ensures var s := CallAndSend(c, flags, slen, data, area, calls);
      && s.c.rcvNxt == c.rcvNxt && s.call == Some(Callback(c, flags, data)) && s.out != Bounce
      && (c.state == ESTABLISHED ==> s.c.state in {ESTABLISHED, CLOSED, FIN_WAIT_1})
  {
  }

  ghost function AfterAck(c: Conn, seg: Segment): Conn {
    if Acks(c, seg) then TakeAck(c) else c
  }

  /** An established endpoint that has taken what a segment without FIN brings, and not yet
      called the application. */
  ghost function Taken(x: Endpoint, seg: Segment): Endpoint {
    var c1 := AfterAck(x.c, seg);
    var n := Accepted(c1, seg);
    var c2 := TakeWindow(if n > 0 then Received(c1, n) else c1, seg.wnd);
    x.(c := c2, rcv := x.rcv + n, delivered := x.delivered + if n > 0 then seg.body else [])
  }

  lemma AfterAckKeeps(x: Endpoint, y: Endpoint, xy: set<Flight>, yx: set<Flight>, f: Flight)
    requires Linked(x, y, xy, yx) && x.born && f in yx && !f.seg.flags.rst && x.c.state == ESTABLISHED
    ensures Linked(x.(c := AfterAck(x.c, f.seg)), y, xy, yx)
  {
    if Acks(x.c, f.seg) {
      AckKeeps(x, TakeAck(x.c), y, xy, yx, f);
    } else {
      assert x.(c := x.c) == x;
    }
  }

  lemma TakenKeeps(x: Endpoint, y: Endpoint, xy: set<Flight>, yx: set<Flight>, f: Flight, turn: Turn, tcpMss: u16)
    requires Arriving(x, y, xy, yx, f, turn, tcpMss) && !f.seg.flags.rst && !OutOfOrder(x.c, f.seg)
    requires x.c.state == ESTABLISHED && (!f.seg.flags.fin || x.c.stopped)
    ensures Linked(Taken(x, f.seg), y, xy, yx)
    ensures var n := Accepted(AfterAck(x.c, f.seg), f.seg);
      n > 0 ==> DataLen(f.seg) == n == |f.seg.body| && DataFrom(f.seg) == 0
  {
    var c1 := AfterAck(x.c, f.seg);
    AfterAckKeeps(x, y, xy, yx, f);
    PlainData(y, x, yx, f, c1);
    DataTaken(x.(c := c1), Taken(x, f.seg), y, xy, yx, f);
  }

  lemma PlainData(y: Endpoint, x: Endpoint, yx: set<Flight>, f: Flight, c: Conn)
    requires Out(y, x, yx) && f in yx && !f.seg.flags.rst
    ensures Accepted(c, f.seg) > 0 ==> Accepted(c, f.seg) == DataLen(f.seg) == |f.seg.body| && DataFrom(f.seg) == 0
  {
    assert Carries(y, f);
  }

  /** With the acknowledgement already taken, the data and the window. */
  lemma DataTaken(m: Endpoint, m': Endpoint, y: Endpoint, xy: set<Flight>, yx: set<Flight>, f: Flight)
    requires Linked(m, y, xy, yx) && m.born && m.c.state == ESTABLISHED
    requires f in yx && !f.seg.flags.rst
    requires Accepted(m.c, f.seg) > 0 ==> Accepted(m.c, f.seg) == DataLen(f.seg) && f.seg.seqno == m.c.rcvNxt
    requires var n := Accepted(m.c, f.seg);
      && m' == m.(c := m'.c, rcv := m.rcv + n, delivered := m.delivered + if n > 0 then f.seg.body else [])
      && m'.c == m.c.(rcvNxt := if n > 0 then Plus(m.c.rcvNxt, n) else m.c.rcvNxt, mss := m'.c.mss)
    ensures Linked(m', y, xy, yx)
  {
    if Accepted(m.c, f.seg) > 0 {
      DataKeeps(m, m'.c, y, xy, yx, f, f.seg.body);
    } else {
      Refresh(m, m'.c, y, xy, yx);
      assert m' == m.(c := m'.c);
    }
  }

  lemma TakenPosition(x: Endpoint, seg: Segment)
    ensures Distance(x.c.rcvNxt, Taken(x, seg).c.rcvNxt) == Accepted(AfterAck(x.c, seg), seg)
  {
    DistanceOfPlus(x.c.rcvNxt, Accepted(AfterAck(x.c, seg), seg));
  }

  ghost function ArrivalFlags(x: Endpoint, seg: Segment): set<Flag> {
    (if Acks(x.c, seg) then {ACKDATA} else {}) + (if Accepted(AfterAck(x.c, seg), seg) > 0 then {NEWDATA} else {})
  }

  ghost function ArrivalData(x: Endpoint, seg: Segment): seq<byte> {
    if Accepted(AfterAck(x.c, seg), seg) > 0 then seg.body else []
  }

  /** What Arrive does with such a segment, in terms of Taken. */
  lemma EstablishedStep(x: Endpoint, seg: Segment, slen: u16, turn: Turn, tcpMss: u16)
    requires Equipped(x.c, turn, tcpMss) && seg.body <= turn.area && !seg.flags.rst && !OutOfOrder(x.c, seg)
    requires x.c.state == ESTABLISHED && (!seg.flags.fin || x.c.stopped)
    requires Accepted(AfterAck(x.c, seg), seg) > 0 ==>
      Accepted(AfterAck(x.c, seg), seg) == |seg.body| && DataFrom(seg) == 0
    ensures Arrive(x.c, slen, seg, turn.area, turn.calls, tcpMss) ==
      if ArrivalFlags(x, seg) != {} then
        CallAndSend(Taken(x, seg).c, ArrivalFlags(x, seg), 0, ArrivalData(x, seg), turn.area, turn.calls)
      else Step(Taken(x, seg).c, slen, Silent, None)
  {
    var n := Accepted(AfterAck(x.c, seg), seg);
    assert n > 0 ==> Shown(turn.area, 0, n) == seg.body;
    assert (ACKDATA in ArrivalFlags(x, seg)) == Acks(x.c, seg);
    assert (NEWDATA in ArrivalFlags(x, seg)) == (n > 0);
  }

  lemma MovedIsGrow(x: Endpoint, seg: Segment, slen: u16, turn: Turn, tcpMss: u16)
    requires Equipped(x.c, turn, tcpMss) && x.c.state == ESTABLISHED
    ensures var m := Taken(x, seg);
      var s := CallAndSend(m.c, ArrivalFlags(x, seg), 0, ArrivalData(x, seg), turn.area, turn.calls);
      Moved(x, s, turn.calls) == Grow(m, s, turn.calls)
  {
    var m := Taken(x, seg);
    var s := CallAndSend(m.c, ArrivalFlags(x, seg), 0, ArrivalData(x, seg), turn.area, turn.calls);
    TakenPosition(x, seg);
    CallAndSendFrame(m.c, ArrivalFlags(x, seg), 0, ArrivalData(x, seg), turn.area, turn.calls);
    MovedPosition(x, m, s, turn.calls);
  }

  lemma MovedPosition(x: Endpoint, m: Endpoint, s: Step, calls: seq<AppCall>)
    requires x.c.state != SYN_SENT && m == x.(c := m.c, rcv := m.rcv, delivered := m.delivered)
    requires s.c.rcvNxt == m.c.rcvNxt && m.rcv == x.rcv + Distance(x.c.rcvNxt, m.c.rcvNxt)
    requires m.delivered == x.delivered + Shows(s)
    ensures Moved(x, s, calls) == Grow(m, s, calls)
  {
  }

  lemma MovedQuietly(x: Endpoint, seg: Segment, slen: u16, calls: seq<AppCall>)
    requires x.c.state == ESTABLISHED && ArrivalFlags(x, seg) == {}
    ensures Moved(x, Step(Taken(x, seg).c, slen, Silent, None), calls) == Taken(x, seg)
  {
    var m := Taken(x, seg);
    assert Accepted(AfterAck(x.c, seg), seg) == 0 by {
      assert NEWDATA !in ArrivalFlags(x, seg);
    }
    TakenPosition(x, seg);
    assert x.sent + [] == x.sent && x.delivered + [] == x.delivered;
  }

  lemma PoliteTaken(x: Endpoint, m: Endpoint, s: Step, seg: Segment, turn: Turn, tcpMss: u16)
    requires x.c.state == ESTABLISHED && Equipped(x.c, turn, tcpMss) && m == Taken(x, seg)
    requires s.call == Some(Callback(m.c, ArrivalFlags(x, seg), ArrivalData(x, seg))) && PoliteStep(x, s, 0, turn)
    ensures Polite(s.call.value, Call(m.c, ArrivalFlags(x, seg), 0, turn.area, turn.calls), turn.calls, Outstanding(m))
    ensures ACKDATA in ArrivalFlags(x, seg) ==> m.c.len == 0
  {
    assert m.c.len > 0 ==> m.c.len == x.c.len && Outstanding(m) == Outstanding(x);
  }

  /** The case that calls the application. */
  lemma EstablishedCall(x: Endpoint, m: Endpoint, x': Endpoint, s: Step, y: Endpoint, xy: set<Flight>, yx: set<Flight>,
                        seg: Segment, turn: Turn, host: Addr, tcpMss: u16)
    requires x.born && x.c.state == ESTABLISHED && Equipped(x.c, turn, tcpMss) && m == Taken(x, seg) &&
      Linked(m, y, xy, yx)
    requires s == CallAndSend(m.c, ArrivalFlags(x, seg), 0, ArrivalData(x, seg), turn.area, turn.calls)
    requires x' == Moved(x, s, turn.calls) && PoliteStep(x, s, 0, turn) && Total(x') < 0x1_0000_0000
    ensures Linked(x', y, xy + Launched(x', s, Some(seg), host, tcpMss), yx)
  {
    var flags, d := ArrivalFlags(x, seg), ArrivalData(x, seg);
    assert x' == Grow(m, s, turn.calls) by {
      MovedIsGrow(x, seg, 0, turn, tcpMss);
    }
    CallAndSendFrame(m.c, flags, 0, d, turn.area, turn.calls);
    PoliteTaken(x, m, s, seg, turn, tcpMss);
    SendKeeps(m, x', s, y, xy, yx, flags, 0, d, turn, host, tcpMss);
  }

  lemma EstablishedArrival(x: Endpoint, y: Endpoint, xy: set<Flight>, yx: set<Flight>, f: Flight, slen: u16,
                           turn: Turn, host: Addr, tcpMss: u16)
    requires Arriving(x, y, xy, yx, f, turn, tcpMss) && !f.seg.flags.rst && !OutOfOrder(x.c, f.seg)
    requires x.c.state == ESTABLISHED && (!f.seg.flags.fin || x.c.stopped)
    requires var s := Arrive(x.c, slen, f.seg, turn.area, turn.calls, tcpMss);
      PoliteStep(x, s, 0, turn) && Total(Moved(x, s, turn.calls)) < 0x1_0000_0000
    ensures var s := Arrive(x.c, slen, f.seg, turn.area, turn.calls, tcpMss);
      var x' := Moved(x, s, turn.calls);
      Linked(x', y, xy + Launched(x', s, Some(f.seg), host, tcpMss), yx)
  {
    TakenKeeps(x, y, xy, yx, f, turn, tcpMss);
    EstablishedStep(x, f.seg, slen, turn, tcpMss);
    if ArrivalFlags(x, f.seg) == {} {
      MovedQuietly(x, f.seg, slen, turn.calls);
      assert xy + {} == xy;
    } else {
      var s := Arrive(x.c, slen, f.seg, turn.area, turn.calls, tcpMss);
      EstablishedCall(x, Taken(x, f.seg), Moved(x, s, turn.calls), s, y, xy, yx, f.seg, turn, host, tcpMss);
    }
  }

  /** A step that shows and submits nothing and advances the other stream by n units. */
  lemma MovedBy(x: Endpoint, s: Step, calls: seq<AppCall>, n: nat)
    requires x.c.state != SYN_SENT && n < 0x1_0000_0000 && s.c.rcvNxt == Plus(x.c.rcvNxt, n)
    requires Shows(s) == [] && (s.out.Emit? ==> s.out.payload == [])
    ensures Moved(x, s, calls) ==
      x.(c := s.c, rcv := x.rcv + n, fin := x.fin || s.c.state in {FIN_WAIT_1, LAST_ACK})
  {
    DistanceOfPlus(x.c.rcvNxt, n);
    assert x.sent + [] == x.sent && x.delivered + [] == x.delivered;
  }

  lemma MovedStill(x: Endpoint, s: Step, calls: seq<AppCall>)
    requires Local(x) && x.born && s.c.rcvNxt == x.c.rcvNxt &&
      (x.c.state == SYN_SENT && s.call.Some? ==> CONNECTED !in s.call.value.flags)
    requires Shows(s) == [] && (s.out.Emit? ==> s.out.payload == []) && (s.c.state in {FIN_WAIT_1, LAST_ACK} ==> x.fin)
    ensures Moved(x, s, calls) == x.(c := s.c)
  {
    DistanceOfPlus(x.c.rcvNxt, 0);
    assert x.sent + [] == x.sent && x.delivered + [] == x.delivered;
  }

  /** A polite callback on a closed or closing connection leaves the connection alone. */
  lemma QuietCall(c: Conn, flags: set<Flag>, slen: u16, data: seq<byte>, turn: Turn, out: Output)
    requires Fits(turn.calls, turn.area) && !c.stopped && !LeftStopped(false, turn.calls)
    ensures var s := CallOnly(c, flags, slen, data, turn.area, turn.calls, out);
      s.c == c && s.out == out && s.call == Some(Callback(c, flags, data))
  {
    RunStops(AppView(flags, slen, c.stopped, turn.area), turn.calls);
  }

  /** The two sides stay linked when x becomes x' and sends what step s says. */
  ghost predicate Lands(x': Endpoint, s: Step, y: Endpoint, xy: set<Flight>, yx: set<Flight>, seg: Option<Segment>,
                        host: Addr, tcpMss: u16) {
    (s.out.Emit? ==> |s.out.payload| < 0xff00) && Linked(x', y, xy + Launched(x', s, seg, host, tcpMss), yx)
  }

  /** A step that sends no data and leaves the endpoint as x'. */
  lemma ControlLands(x': Endpoint, s: Step, y: Endpoint, xy: set<Flight>, yx: set<Flight>, seg: Segment, host: Addr,
                     tcpMss: u16)
    requires Linked(x', y, xy, yx) && x'.born && x'.c == s.c
    requires s.out.Emit? ==> s.out.payload == [] && MayEmit(x', s.out.flags, s.out.syn, [])
    ensures Lands(x', s, y, xy, yx, Some(seg), host, tcpMss)
  {
    if s.out.Emit? {
      EmitKeeps(x', y, xy, yx, host, tcpMss, s.out.flags, s.out.syn, []);
    } else if s.out.Silent? || seg.flags.rst {
      assert xy + {} == xy;
    } else {
      LaunchKeeps(x', y, xy, yx, Flight(Una(x'), x'.rcv, ResetOf(seg, host)));
    }
  }

  // ----- RST, and segments out of order -----

  lemma RstArrival(x: Endpoint, y: Endpoint, xy: set<Flight>, yx: set<Flight>, f: Flight, s: Step, slen: u16,
                   turn: Turn, host: Addr, tcpMss: u16)
    requires Arriving(x, y, xy, yx, f, turn, tcpMss) && f.seg.flags.rst
    requires s == Arrive(x.c, slen, f.seg, turn.area, turn.calls, tcpMss) && PoliteStep(x, s, 0, turn)
    ensures Lands(Moved(x, s, turn.calls), s, y, xy, yx, Some(f.seg), host, tcpMss)
  {
    QuietCall(Enter(x.c, CLOSED), {ABORT}, slen, [], turn, Silent);
    MovedStill(x, s, turn.calls);
    Refresh(x, s.c, y, xy, yx);
    ControlLands(x.(c := s.c), s, y, xy, yx, f.seg, host, tcpMss);
  }

  /** Until its SYN is answered, an active side sees nothing but SYN|ACKs, bare ACKs and RSTs. */
  lemma OnlySynAcks(x: Endpoint, y: Endpoint, xy: set<Flight>, yx: set<Flight>, f: Flight)
    requires Linked(x, y, xy, yx) && x.born && x.c.state == SYN_SENT && f in yx && !f.seg.flags.rst
    ensures !OutOfOrder(x.c, f.seg)
  {
    assert Carries(y, f) && Una(y) == 0;
  }

  lemma OutOfOrderArrival(x: Endpoint, y: Endpoint, xy: set<Flight>, yx: set<Flight>, f: Flight, s: Step, slen: u16,
                          turn: Turn, host: Addr, tcpMss: u16)
    requires Arriving(x, y, xy, yx, f, turn, tcpMss) && !f.seg.flags.rst && OutOfOrder(x.c, f.seg)
    requires s == Step(x.c, slen, PureAck, None)
    ensures Lands(Moved(x, s, turn.calls), s, y, xy, yx, Some(f.seg), host, tcpMss)
  {
    if x.c.state == SYN_SENT {
      OnlySynAcks(x, y, xy, yx, f);
    }
    MovedStill(x, s, turn.calls);
    assert x.(c := s.c) == x;
    ControlLands(x, s, y, xy, yx, f.seg, host, tcpMss);
  }

  // ----- a FIN in ESTABLISHED -----

  lemma FinStep(c1: Conn, acked: bool, seg: Segment, slen: u16, turn: Turn)
    requires Room(c1, turn.area) && Fits(turn.calls, turn.area)
    requires seg.flags.fin && !c1.stopped && DataLen(seg) == 0
    ensures var s := InEstablished(c1, acked, slen, seg, turn.area, turn.calls);
      if c1.len > 0 then s == Step(c1, slen, Silent, None)
      else
        s.c == Enter(Received(c1, 1), LAST_ACK).(len := 1, nrtx := 0) &&
        s.out == Emit(FIN_ACK, false, []) && Shows(s) == []
  {
  }

  lemma FinArrival(x: Endpoint, y: Endpoint, xy: set<Flight>, yx: set<Flight>, f: Flight, s: Step, slen: u16,
                   turn: Turn, host: Addr, tcpMss: u16)
    requires Arriving(x, y, xy, yx, f, turn, tcpMss) && !f.seg.flags.rst && !OutOfOrder(x.c, f.seg)
    requires x.c.state == ESTABLISHED && f.seg.flags.fin && !x.c.stopped
    requires s == Arrive(x.c, slen, f.seg, turn.area, turn.calls, tcpMss) &&
      Total(Moved(x, s, turn.calls)) < 0x1_0000_0000
    ensures Lands(Moved(x, s, turn.calls), s, y, xy, yx, Some(f.seg), host, tcpMss)
  {
    NextFin(y, x, yx, f);
    FinStep(AfterAck(x.c, f.seg), Acks(x.c, f.seg), f.seg, slen, turn);
    var m := x.(c := AfterAck(x.c, f.seg));
    if m.c.len > 0 {
      MovedStill(x, s, turn.calls);
      assert x.(c := s.c) == x;
      ControlLands(x, s, y, xy, yx, f.seg, host, tcpMss);
    } else {
      if Acks(x.c, f.seg) {
        AckKeeps(x, m.c, y, xy, yx, f);
      }
      MovedBy(x, s, turn.calls, 1);
      FinTaken(m, x.(c := s.c, rcv := x.rcv + 1, fin := true), s, y, xy, yx, f, host, tcpMss);
    }
  }

  lemma FinTaken(m: Endpoint, x': Endpoint, s: Step, y: Endpoint, xy: set<Flight>, yx: set<Flight>, f: Flight,
                 host: Addr, tcpMss: u16)
    requires Linked(m, y, xy, yx) && m.born && m.c.state == ESTABLISHED && m.c.len == 0 && f in yx && !f.seg.flags.rst
    requires f.seg.flags.fin && f.seg.seqno == m.c.rcvNxt && Total(x') < 0x1_0000_0000
    requires s.c == Enter(Received(m.c, 1), LAST_ACK).(len := 1, nrtx := 0) && s.out == Emit(FIN_ACK, false, [])
    requires x' == m.(c := s.c, rcv := m.rcv + 1, fin := true)
    ensures Lands(x', s, y, xy, yx, Some(f.seg), host, tcpMss)
  {
    SenderFin(m, m.(c := s.c, fin := true), y, xy);
    FinKeeps(m, x', y, xy, yx, f);
    ControlLands(x', s, y, xy, yx, f.seg, host, tcpMss);
  }

  // ----- SYN_RCVD -----

  /** The endpoint once its SYN|ACK is acknowledged, before the application is called. */
  ghost function Opened(x: Endpoint, seg: Segment): Endpoint {
    var c1 := Enter(TakeAck(x.c), ESTABLISHED);
    var n := DataLen(seg);
    x.(c := if n > 0 then Received(c1, n) else c1, rcv := x.rcv + n,
       delivered := x.delivered + if n > 0 then seg.body else [])
  }

  function OpenedFlags(seg: Segment): set<Flag> {
    if DataLen(seg) > 0 then {CONNECTED, NEWDATA} else {CONNECTED}
  }

  function OpenedData(seg: Segment): seq<byte> {
    if DataLen(seg) > 0 then seg.body else []
  }

  lemma OpenedKeeps(x: Endpoint, y: Endpoint, xy: set<Flight>, yx: set<Flight>, f: Flight)
    requires Linked(x, y, xy, yx) && x.born && f in yx && !f.seg.flags.rst && !OutOfOrder(x.c, f.seg)
    requires x.c.state == SYN_RCVD && Acks(x.c, f.seg)
    ensures Linked(Opened(x, f.seg), y, xy, yx) && (DataLen(f.seg) > 0 ==> DataLen(f.seg) == |f.seg.body|)
  {
    var c1 := Enter(TakeAck(x.c), ESTABLISHED);
    var m1 := x.(c := c1);
    AckKeeps(x, c1, y, xy, yx, f);
    if DataLen(f.seg) > 0 {
      DataKeeps(m1, Received(c1, DataLen(f.seg)), y, xy, yx, f, f.seg.body);
    } else {
      assert Opened(x, f.seg) == m1;
    }
  }

  lemma SynRcvdStep(x: Endpoint, seg: Segment, s: Step, slen: u16, turn: Turn, tcpMss: u16)
    requires Equipped(x.c, turn, tcpMss) && seg.body <= turn.area && !seg.flags.rst && !OutOfOrder(x.c, seg) &&
      x.c.state == SYN_RCVD
    requires Acks(x.c, seg) && (DataLen(seg) > 0 ==> DataLen(seg) == |seg.body|)
    requires s == Arrive(x.c, slen, seg, turn.area, turn.calls, tcpMss)
    ensures var m := Opened(x, seg);
      && s == CallAndSend(m.c, OpenedFlags(seg), 0, OpenedData(seg), turn.area, turn.calls)
      && Moved(x, s, turn.calls) == Grow(m, s, turn.calls)
  {
    assert DataLen(seg) > 0 ==> Shown(turn.area, 0, DataLen(seg)) == seg.body;
    var m := Opened(x, seg);
    CallAndSendFrame(m.c, OpenedFlags(seg), 0, OpenedData(seg), turn.area, turn.calls);
    DistanceOfPlus(x.c.rcvNxt, DataLen(seg));
    MovedPosition(x, m, s, turn.calls);
  }

  lemma OpenedSends(x: Endpoint, m: Endpoint, s: Step, y: Endpoint, xy: set<Flight>, yx: set<Flight>, seg: Segment,
                    turn: Turn, host: Addr, tcpMss: u16)
    requires Equipped(x.c, turn, tcpMss) && x.born && m == Opened(x, seg) && Linked(m, y, xy, yx)
    requires s == CallAndSend(m.c, OpenedFlags(seg), 0, OpenedData(seg), turn.area, turn.calls)
    requires Moved(x, s, turn.calls) == Grow(m, s, turn.calls)
    requires PoliteStep(x, s, 0, turn) && Total(Moved(x, s, turn.calls)) < 0x1_0000_0000
    ensures Lands(Moved(x, s, turn.calls), s, y, xy, yx, Some(seg), host, tcpMss)
  {
    CallAndSendFrame(m.c, OpenedFlags(seg), 0, OpenedData(seg), turn.area, turn.calls);
    SendKeeps(m, Moved(x, s, turn.calls), s, y, xy, yx, OpenedFlags(seg), 0, OpenedData(seg), turn, host, tcpMss);
  }

  lemma SynRcvdArrival(x: Endpoint, y: Endpoint, xy: set<Flight>, yx: set<Flight>, f: Flight, s: Step, slen: u16,
                       turn: Turn, host: Addr, tcpMss: u16)
    requires Arriving(x, y, xy, yx, f, turn, tcpMss) && !f.seg.flags.rst && !OutOfOrder(x.c, f.seg) &&
      x.c.state == SYN_RCVD
    requires s == Arrive(x.c, slen, f.seg, turn.area, turn.calls, tcpMss)
    requires PoliteStep(x, s, 0, turn) && Total(Moved(x, s, turn.calls)) < 0x1_0000_0000
    ensures Lands(Moved(x, s, turn.calls), s, y, xy, yx, Some(f.seg), host, tcpMss)
  {
    if Acks(x.c, f.seg) {
      OpenedKeeps(x, y, xy, yx, f);
      SynRcvdStep(x, f.seg, s, slen, turn, tcpMss);
      OpenedSends(x, Opened(x, f.seg), s, y, xy, yx, f.seg, turn, host, tcpMss);
    } else {
      MovedStill(x, s, turn.calls);
      assert x.(c := s.c) == x;
      ControlLands(x, s, y, xy, yx, f.seg, host, tcpMss);
    }
  }

  // ----- SYN_SENT -----

  /** The active side once its SYN is answered, before the application is called. */
  ghost function Answered(x: Endpoint, seg: Segment, turn: Turn, tcpMss: u16): Endpoint
    requires Equipped(x.c, turn, tcpMss)
  {
    x.(c := Synchronized(TakeAck(x.c), seg, turn.area, tcpMss), rcv := 1)
  }

  lemma AnsweredKeeps(x: Endpoint, y: Endpoint, xy: set<Flight>, yx: set<Flight>, f: Flight, turn: Turn, tcpMss: u16)
    requires Arriving(x, y, xy, yx, f, turn, tcpMss) && !f.seg.flags.rst && x.c.state == SYN_SENT
    requires Acks(x.c, f.seg) && f.seg.flags == SYN_ACK
    ensures Linked(Answered(x, f.seg, turn, tcpMss), y, xy, yx)
  {
    var m := Answered(x, f.seg, turn, tcpMss);
    assert Carries(y, f) && f.seg.flags.syn;
    PlusZero(y.iss);
    AckMeansAll(y, x, yx, xy, f);
    SenderAcked(x, x.(c := m.c), y, xy);
    PlusPlus(x.iss, 0, 1);
    assert Stream(m);
    assert Out(y, m, yx);
  }

  lemma SynSentStep(x: Endpoint, seg: Segment, s: Step, slen: u16, turn: Turn, tcpMss: u16)
    requires Local(x) && x.born && Equipped(x.c, turn, tcpMss) && x.c.state == SYN_SENT
    requires s == InState(AfterAck(x.c, seg), Acks(x.c, seg), slen, seg, turn.area, turn.calls, tcpMss)
    ensures if Acks(x.c, seg) && seg.flags == SYN_ACK then
        var m := Answered(x, seg, turn, tcpMss);
        && s == CallAndSend(m.c, {CONNECTED, NEWDATA}, 0, [], turn.area, turn.calls)
        && Moved(x, s, turn.calls) == Grow(m, s, turn.calls)
      else
        && s.c == Enter(AfterAck(x.c, seg), CLOSED) && s.out == Bounce
        && Moved(x, s, turn.calls) == x.(c := s.c)
  {
    assert x.delivered + [] == x.delivered && x.sent + [] == x.sent;
    if Acks(x.c, seg) && seg.flags == SYN_ACK {
      CallAndSendFrame(Answered(x, seg, turn, tcpMss).c, {CONNECTED, NEWDATA}, 0, [], turn.area, turn.calls);
    }
  }

  lemma SynSentArrival(x: Endpoint, y: Endpoint, xy: set<Flight>, yx: set<Flight>, f: Flight, s: Step, slen: u16,
                       turn: Turn, host: Addr, tcpMss: u16)
    requires Arriving(x, y, xy, yx, f, turn, tcpMss) && !f.seg.flags.rst && x.c.state == SYN_SENT
    requires s == InState(AfterAck(x.c, f.seg), Acks(x.c, f.seg), slen, f.seg, turn.area, turn.calls, tcpMss)
    requires PoliteStep(x, s, 0, turn) && Total(Moved(x, s, turn.calls)) < 0x1_0000_0000
    ensures Lands(Moved(x, s, turn.calls), s, y, xy, yx, Some(f.seg), host, tcpMss)
  {
    SynSentStep(x, f.seg, s, slen, turn, tcpMss);
    if Acks(x.c, f.seg) && f.seg.flags == SYN_ACK {
      var m := Answered(x, f.seg, turn, tcpMss);
      AnsweredKeeps(x, y, xy, yx, f, turn, tcpMss);
      CallAndSendFrame(m.c, {CONNECTED, NEWDATA}, 0, [], turn.area, turn.calls);
      SendKeeps(m, Moved(x, s, turn.calls), s, y, xy, yx, {CONNECTED, NEWDATA}, 0, [], turn, host, tcpMss);
    } else {
      if Acks(x.c, f.seg) {
        AckKeeps(x, s.c, y, xy, yx, f);
      } else {
        Refresh(x, s.c, y, xy, yx);
      }
      ControlLands(x.(c := s.c), s, y, xy, yx, f.seg, host, tcpMss);
    }
  }

  // ----- the states after the own FIN -----

  /** Data that arrives after the own FIN advances the stream and is discarded. */
  ghost function Discarding(x: Endpoint, n: nat): Endpoint {
    if n > 0 then x.(c := Received(x.c, n), rcv := x.rcv + n) else x
  }

  lemma DiscardKeeps(x: Endpoint, y: Endpoint, xy: set<Flight>, yx: set<Flight>, f: Flight)
    requires Linked(x, y, xy, yx) && x.born && f in yx && !f.seg.flags.rst && !OutOfOrder(x.c, f.seg)
    requires x.c.state in {FIN_WAIT_1, FIN_WAIT_2}
    ensures Linked(Discarding(x, DataLen(f.seg)), y, xy, yx)
    ensures f.seg.flags.fin ==> DataLen(f.seg) == 0 && f.seg.seqno == x.c.rcvNxt
  {
    assert Carries(y, f);
    if DataLen(f.seg) > 0 {
      DataKeeps(x, Received(x.c, DataLen(f.seg)), y, xy, yx, f, []);
      assert x.delivered + [] == x.delivered;
    }
  }

  lemma FinWait1Arrival(x: Endpoint, y: Endpoint, xy: set<Flight>, yx: set<Flight>, f: Flight, s: Step, slen: u16,
                        turn: Turn, host: Addr, tcpMss: u16)
    requires Arriving(x, y, xy, yx, f, turn, tcpMss) && !f.seg.flags.rst && !OutOfOrder(x.c, f.seg) &&
      x.c.state == FIN_WAIT_1
    requires s == InState(AfterAck(x.c, f.seg), Acks(x.c, f.seg), slen, f.seg, turn.area, turn.calls, tcpMss)
    requires PoliteStep(x, s, 0, turn)
    ensures Lands(Moved(x, s, turn.calls), s, y, xy, yx, Some(f.seg), host, tcpMss)
  {
    DiscardKeeps(x, y, xy, yx, f);
    if f.seg.flags.fin {
      ClosingArrival(x, y, xy, yx, f, s, slen, turn, host, tcpMss);
    } else {
      var m := Discarding(x, DataLen(f.seg));
      FinWait1Step(x, f.seg, s, slen, turn, tcpMss);
      if Acks(x.c, f.seg) {
        AckKeeps(m, s.c, y, xy, yx, f);
      }
      ControlLands(m.(c := s.c), s, y, xy, yx, f.seg, host, tcpMss);
    }
  }

  lemma FinWait1Step(x: Endpoint, seg: Segment, s: Step, slen: u16, turn: Turn, tcpMss: u16)
    requires Local(x) && x.born && Equipped(x.c, turn, tcpMss) && x.c.state == FIN_WAIT_1 && !seg.flags.fin
    requires s == InState(AfterAck(x.c, seg), Acks(x.c, seg), slen, seg, turn.area, turn.calls, tcpMss)
    ensures var m := Discarding(x, DataLen(seg));
      && s.c == (if Acks(x.c, seg) then Enter(TakeAck(m.c), FIN_WAIT_2) else m.c)
      && (s.out == Silent || s.out == PureAck)
      && Moved(x, s, turn.calls) == m.(c := s.c)
  {
    var m := Discarding(x, DataLen(seg));
    FinWait1Data(AfterAck(x.c, seg), Acks(x.c, seg), slen, seg, turn, tcpMss);
    assert s.c == (if Acks(x.c, seg) then Enter(TakeAck(m.c), FIN_WAIT_2) else m.c);
    DiscardMoves(x, s, turn.calls, DataLen(seg));
  }

  lemma DiscardMoves(x: Endpoint, s: Step, calls: seq<AppCall>, n: u16)
    requires x.c.state == FIN_WAIT_1 && x.fin && s.c.rcvNxt == Discarding(x, n).c.rcvNxt && s.call == None
    requires s.out == Silent || s.out == PureAck
    ensures Moved(x, s, calls) == Discarding(x, n).(c := s.c)
  {
    PlusZero(x.c.rcvNxt);
    MovedBy(x, s, calls, n);
  }

  lemma FinWait1Data(c: Conn, acked: bool, slen: u16, seg: Segment, turn: Turn, tcpMss: u16)
    requires Room(c, turn.area) && Fits(turn.calls, turn.area) && tcpMss <= |turn.area| && c.state == FIN_WAIT_1 &&
      !seg.flags.fin
    ensures var n := DataLen(seg);
      var c1 := if n > 0 then Received(c, n) else c;
      InState(c, acked, slen, seg, turn.area, turn.calls, tcpMss) ==
        if acked then Step(Enter(c1, FIN_WAIT_2).(len := 0), slen, Silent, None)
        else Step(c1, slen, if n > 0 then PureAck else Silent, None)
  {
  }

  lemma ClosingStep(x: Endpoint, seg: Segment, s: Step, slen: u16, turn: Turn, tcpMss: u16)
    requires Local(x) && x.born && Equipped(x.c, turn, tcpMss) && x.c.state in {FIN_WAIT_1, FIN_WAIT_2} &&
      seg.flags.fin && DataLen(seg) == 0
    requires s == InState(AfterAck(x.c, seg), Acks(x.c, seg), slen, seg, turn.area, turn.calls, tcpMss)
    requires PoliteStep(x, s, 0, turn)
    ensures s.c == Received(
      if x.c.state == FIN_WAIT_2 || Acks(x.c, seg) then Enter(AfterAck(x.c, seg), TIME_WAIT).(timer := 0, len := 0)
      else Enter(x.c, CLOSING), 1)
    ensures s.out == PureAck && Moved(x, s, turn.calls) == x.(c := s.c, rcv := x.rcv + 1)
  {
    var c1 := AfterAck(x.c, seg);
    var c2 := if x.c.state == FIN_WAIT_2 || Acks(x.c, seg) then Enter(c1, TIME_WAIT).(timer := 0, len := 0)
              else Enter(c1, CLOSING);
    QuietCall(Received(c2, 1), {CLOSE}, slen, [], turn, PureAck);
    MovedBy(x, s, turn.calls, 1);
  }

  /** A FIN in FIN_WAIT_1 or FIN_WAIT_2: to TIME_WAIT when ours is acknowledged, else to CLOSING. */
  lemma ClosingArrival(x: Endpoint, y: Endpoint, xy: set<Flight>, yx: set<Flight>, f: Flight, s: Step, slen: u16,
                       turn: Turn, host: Addr, tcpMss: u16)
    requires Arriving(x, y, xy, yx, f, turn, tcpMss) && !f.seg.flags.rst && x.c.state in {FIN_WAIT_1, FIN_WAIT_2}
    requires f.seg.flags.fin && DataLen(f.seg) == 0 && f.seg.seqno == x.c.rcvNxt
    requires s == InState(AfterAck(x.c, f.seg), Acks(x.c, f.seg), slen, f.seg, turn.area, turn.calls, tcpMss)
    requires PoliteStep(x, s, 0, turn)
    ensures Lands(Moved(x, s, turn.calls), s, y, xy, yx, Some(f.seg), host, tcpMss)
  {
    ClosingStep(x, f.seg, s, slen, turn, tcpMss);
    var x' := x.(c := s.c, rcv := x.rcv + 1);
    ClosingKeeps(x, x', y, xy, yx, f);
    ControlLands(x', s, y, xy, yx, f.seg, host, tcpMss);
  }

  lemma ClosingKeeps(x: Endpoint, x': Endpoint, y: Endpoint, xy: set<Flight>, yx: set<Flight>, f: Flight)
    requires Linked(x, y, xy, yx) && x.born && f in yx && !f.seg.flags.rst && x.c.state in {FIN_WAIT_1, FIN_WAIT_2}
    requires f.seg.flags.fin && DataLen(f.seg) == 0 && f.seg.seqno == x.c.rcvNxt
    requires x' == x.(c := x'.c, rcv := x.rcv + 1)
    requires x'.c == Received(
      if x.c.state == FIN_WAIT_2 || Acks(x.c, f.seg) then Enter(AfterAck(x.c, f.seg), TIME_WAIT).(timer := 0, len := 0)
      else Enter(x.c, CLOSING), 1)
    ensures Linked(x', y, xy, yx)
  {
    var m := x;
    if Acks(x.c, f.seg) {
      m := x.(c := Enter(TakeAck(x.c), FIN_WAIT_2));
      AckKeeps(x, m.c, y, xy, yx, f);
    }
    FinKeeps(m, x', y, xy, yx, f);
  }

  lemma FinWait2Arrival(x: Endpoint, y: Endpoint, xy: set<Flight>, yx: set<Flight>, f: Flight, s: Step, slen: u16,
                        turn: Turn, host: Addr, tcpMss: u16)
    requires Arriving(x, y, xy, yx, f, turn, tcpMss) && !f.seg.flags.rst && !OutOfOrder(x.c, f.seg) &&
      x.c.state == FIN_WAIT_2
    requires s == InState(AfterAck(x.c, f.seg), Acks(x.c, f.seg), slen, f.seg, turn.area, turn.calls, tcpMss)
    requires PoliteStep(x, s, 0, turn)
    ensures Lands(Moved(x, s, turn.calls), s, y, xy, yx, Some(f.seg), host, tcpMss)
  {
    DiscardKeeps(x, y, xy, yx, f);
    if f.seg.flags.fin {
      ClosingArrival(x, y, xy, yx, f, s, slen, turn, host, tcpMss);
    } else {
      var m := Discarding(x, DataLen(f.seg));
      PlusZero(x.c.rcvNxt);
      MovedBy(x, s, turn.calls, DataLen(f.seg));
      assert m.(c := s.c) == m;
      ControlLands(m, s, y, xy, yx, f.seg, host, tcpMss);
    }
  }

  /** CLOSING, TIME_WAIT and LAST_ACK take nothing but the acknowledgement of the FIN. */
  lemma LateArrival(x: Endpoint, y: Endpoint, xy: set<Flight>, yx: set<Flight>, f: Flight, s: Step, slen: u16,
                    turn: Turn, host: Addr, tcpMss: u16)
    requires Arriving(x, y, xy, yx, f, turn, tcpMss) && !f.seg.flags.rst && x.c.state in {CLOSING, TIME_WAIT, LAST_ACK}
    requires s == InState(AfterAck(x.c, f.seg), Acks(x.c, f.seg), slen, f.seg, turn.area, turn.calls, tcpMss)
    requires PoliteStep(x, s, 0, turn)
    ensures Lands(Moved(x, s, turn.calls), s, y, xy, yx, Some(f.seg), host, tcpMss)
  {
    var c1 := AfterAck(x.c, f.seg);
    if x.c.state == LAST_ACK && Acks(x.c, f.seg) {
      QuietCall(Enter(c1, CLOSED), {CLOSE}, slen, [], turn, Silent);
    }
    MovedStill(x, s, turn.calls);
    if Acks(x.c, f.seg) {
      AckKeeps(x, s.c, y, xy, yx, f);
    } else {
      assert x.(c := s.c) == x;
    }
    ControlLands(x.(c := s.c), s, y, xy, yx, f.seg, host, tcpMss);
  }

  /** Any segment on the channel, in any state. */
  lemma ArriveKeepsLinked(x: Endpoint, y: Endpoint, xy: set<Flight>, yx: set<Flight>, f: Flight, s: Step, slen: u16,
                          turn: Turn, host: Addr, tcpMss: u16)
    requires Arriving(x, y, xy, yx, f, turn, tcpMss)
    requires s == Arrive(x.c, slen, f.seg, turn.area, turn.calls, tcpMss)
    requires PoliteStep(x, s, 0, turn) && Total(Moved(x, s, turn.calls)) < 0x1_0000_0000
    ensures Lands(Moved(x, s, turn.calls), s, y, xy, yx, Some(f.seg), host, tcpMss)
  {
    if f.seg.flags.rst {
      RstArrival(x, y, xy, yx, f, s, slen, turn, host, tcpMss);
    } else if OutOfOrder(x.c, f.seg) {
      OutOfOrderArrival(x, y, xy, yx, f, s, slen, turn, host, tcpMss);
    } else {
      match x.c.state
      case SYN_RCVD => SynRcvdArrival(x, y, xy, yx, f, s, slen, turn, host, tcpMss);
      case SYN_SENT => SynSentArrival(x, y, xy, yx, f, s, slen, turn, host, tcpMss);
      case ESTABLISHED =>
        if f.seg.flags.fin && !x.c.stopped {
          FinArrival(x, y, xy, yx, f, s, slen, turn, host, tcpMss);
        } else {
          EstablishedArrival(x, y, xy, yx, f, slen, turn, host, tcpMss);
        }
      case FIN_WAIT_1 => FinWait1Arrival(x, y, xy, yx, f, s, slen, turn, host, tcpMss);
      case FIN_WAIT_2 => FinWait2Arrival(x, y, xy, yx, f, s, slen, turn, host, tcpMss);
      case CLOSING => LateArrival(x, y, xy, yx, f, s, slen, turn, host, tcpMss);
      case TIME_WAIT => LateArrival(x, y, xy, yx, f, s, slen, turn, host, tcpMss);
      case LAST_ACK => LateArrival(x, y, xy, yx, f, s, slen, turn, host, tcpMss);
    }
  }

  // ----- timer ticks and polls -----

  lemma CountdownStep(x: Endpoint, s: Step, turn: Turn, tcpMss: u16)
    requires Local(x) && x.born && Equipped(x.c, turn, tcpMss) && PoliteStep(x, s, 0, turn)
    requires s == Timer(x.c, turn.area, turn.calls) && (x.c.len == 0 ==> x.c.state != ESTABLISHED)
    requires x.c.len == 0 || x.c.timer > 0 || GivesUp(x.c) || x.c.state == CLOSED
    ensures s.c.len == x.c.len && s.c.sndNxt == x.c.sndNxt && s.c.rcvNxt == x.c.rcvNxt
    ensures s.c.state in {x.c.state, CLOSED} && (s.c.stopped ==> s.c.state == ESTABLISHED)
    ensures (s.out == Silent || s.out == Emit(RST_ACK, false, [])) && Moved(x, s, turn.calls) == x.(c := s.c)
  {
    if x.c.len > 0 && x.c.timer == 0 && x.c.state != CLOSED {
      QuietCall(Enter(x.c, CLOSED).(timer := 0xff), {TIMEDOUT}, 0, [], turn, Emit(RST_ACK, false, []));
    }
    MovedStill(x, s, turn.calls);
  }

  lemma RexmitStep(x: Endpoint, s: Step, turn: Turn, tcpMss: u16)
    requires Local(x) && x.born && Equipped(x.c, turn, tcpMss) && PoliteStep(x, s, 0, turn)
    requires s == Timer(x.c, turn.area, turn.calls) && x.c.len > 0 && x.c.timer == 0 && !GivesUp(x.c) &&
      x.c.state != CLOSED
    ensures s.c.len == x.c.len && s.c.sndNxt == x.c.sndNxt && s.c.rcvNxt == x.c.rcvNxt
    ensures s.c.state == x.c.state && (s.c.stopped ==> s.c.state == ESTABLISHED) && s.out != Bounce
    ensures s.out.Emit? ==> |s.out.payload| < 0xff00 && MayEmit(x.(c := s.c), s.out.flags, s.out.syn, s.out.payload)
    ensures Moved(x, s, turn.calls) == x.(c := s.c)
  {
    var c := x.c.(timer := Backoff(x.c.nrtx), nrtx := (x.c.nrtx + 1) % 0x100);
    RexmitFrame(c, s, turn);
    RexmitEmits(x, c, s, turn, tcpMss);
    assert x.sent + [] == x.sent && x.delivered + [] == x.delivered && Distance(x.c.rcvNxt, x.c.rcvNxt) == 0;
  }

  lemma RexmitFrame(c: Conn, s: Step, turn: Turn)
    requires Able(c, turn) && s == Rexmit(c, turn.area, turn.calls) && c.len > 0
    ensures s.c == c.(stopped := s.c.stopped) && NewChunk(s, turn.calls) == [] && Shows(s) == []
    ensures s.call == None ==> s.c == c
    ensures s.call.Some? ==> s.call.value.c == c && c.state == ESTABLISHED
  {
  }

  lemma RexmitEmits(x: Endpoint, c: Conn, s: Step, turn: Turn, tcpMss: u16)
    requires Local(x) && x.born && Equipped(x.c, turn, tcpMss) && PoliteStep(x, s, 0, turn)
    requires c == x.c.(timer := c.timer, nrtx := c.nrtx) && c.len > 0 && c.state != CLOSED
    requires s == Rexmit(c, turn.area, turn.calls)
    ensures s.out != Bounce
    ensures s.out.Emit? ==> |s.out.payload| < 0xff00 && MayEmit(x.(c := s.c), s.out.flags, s.out.syn, s.out.payload)
  {
  }

  lemma TickKeepsLinked(x: Endpoint, y: Endpoint, xy: set<Flight>, yx: set<Flight>, s: Step, turn: Turn, host: Addr,
                        tcpMss: u16)
    requires Linked(x, y, xy, yx) && x.born && Equipped(x.c, turn, tcpMss)
    requires s == Timer(x.c, turn.area, turn.calls)
    requires PoliteStep(x, s, 0, turn) && Total(Moved(x, s, turn.calls)) < 0x1_0000_0000
    ensures Lands(Moved(x, s, turn.calls), s, y, xy, yx, None, host, tcpMss)
  {
    if x.c.len == 0 && x.c.state == ESTABLISHED {
      IdleKeepsLinked(x, y, xy, yx, s, 0, turn, host, tcpMss);
    } else {
      if x.c.len == 0 || x.c.timer > 0 || GivesUp(x.c) || x.c.state == CLOSED {
        CountdownStep(x, s, turn, tcpMss);
      } else {
        RexmitStep(x, s, turn, tcpMss);
      }
      Refresh(x, s.c, y, xy, yx);
      EmitStep(x.(c := s.c), s, y, xy, yx, host, tcpMss);
    }
  }

  /** An idle established connection polls the application, from the timer or on request. */
  lemma IdleKeepsLinked(x: Endpoint, y: Endpoint, xy: set<Flight>, yx: set<Flight>, s: Step, slen: u16, turn: Turn,
                        host: Addr, tcpMss: u16)
    requires Linked(x, y, xy, yx) && x.born && Equipped(x.c, turn, tcpMss) && x.c.len == 0 && x.c.state == ESTABLISHED
    requires s == CallAndSend(x.c, {POLL}, slen, [], turn.area, turn.calls)
    requires slen == 0 || Submission(turn.calls) != []
    requires PoliteStep(x, s, slen, turn) && Total(Moved(x, s, turn.calls)) < 0x1_0000_0000
    ensures Lands(Moved(x, s, turn.calls), s, y, xy, yx, None, host, tcpMss)
  {
    CallAndSendFrame(x.c, {POLL}, slen, [], turn.area, turn.calls);
    DistanceOfPlus(x.c.rcvNxt, 0);
    assert x.delivered + [] == x.delivered;
    MovedPosition(x, x, s, turn.calls);
    SendKeeps(x, Moved(x, s, turn.calls), s, y, xy, yx, {POLL}, slen, [], turn, host, tcpMss);
  }

  /** A poll request sends bytes the application did not submit in exactly one case: uip_slen was
      left over from an earlier invocation, and the application neither sends nor ends the
      connection. */
  lemma PollSendsStaleBytes(c: Conn, slen: u16, turn: Turn)
    requires Room(c, turn.area) && Fits(turn.calls, turn.area) && c.state == ESTABLISHED && c.len == 0
    requires Submission(turn.calls) == []
    ensures var s := Poll(c, slen, turn.area, turn.calls);
      var v := Call(c, {POLL}, slen, turn.area, turn.calls);
      s.out.Emit? && s.out.payload != [] <==> slen > 0 && c.mss > 0 && ABORT !in v.flags && CLOSE !in v.flags
  {
    RunEffect(AppView({POLL}, slen, c.stopped, turn.area), turn.calls);
  }

  /** How that comes about: on a tick the application of one connection sends; then a poll of another,
      idle connection finds uip_slen as the tick left it, and sends what lies in the buffer although
      its own application says nothing. */
  lemma LeftoverIsSent(e: Engine, i: nat, j: nat, data: seq<byte>, area: seq<byte>, area': seq<byte>, host: Addr,
                       tcpMss: u16)
    requires i < |e.conns| && j < |e.conns| && i != j && data != []
    requires e.conns[i].state == e.conns[j].state == ESTABLISHED && e.conns[i].len == e.conns[j].len == 0
    requires e.conns[i].mss > 0 && e.conns[j].mss > 0
    requires tcpMss <= |area| == |area'| && RoomAll(e.conns, area) && RoomAll(e.conns, area') &&
      Fits([Send(data)], area)
    ensures var tick, poll := TcpTable.Tick(j, area, [Send(data)]), TcpTable.PollConn(i, area', []);
      && Applicable(e, tick, tcpMss)
      && var e1 := Exec(e, tick, host, tcpMss).e;
      && e1.slen == Min(|data|, e.conns[j].mss) && e1.conns[i] == e.conns[i] && Applicable(e1, poll, tcpMss)
      && var out := Exec(e1, poll, host, tcpMss).out;
      && out.Some? && out.value.body == area'[..Min(e1.slen, e.conns[i].mss)] != [] && Submission(poll.calls) == []
  {
    SendsOnTick(e.conns[j], data, area);
    var c := e.conns[j];
    var s := Timer(c, area, [Send(data)]);
    assert e.conns[i := e.conns[i]] == e.conns;
    IdlePoll(e.conns[i], s.slen, area');
    assert RoomAll(e.conns[j := s.c], area');
  }

  lemma SendsOnTick(c: Conn, data: seq<byte>, area: seq<byte>)
    requires Room(c, area) && |area| < 0xff00 && Fits([Send(data)], area) && data != []
    requires c.state == ESTABLISHED && c.len == 0 && c.mss > 0
    ensures var s := Timer(c, area, [Send(data)]);
      s.slen == Min(|data|, c.mss) && s.out.Emit? && |s.out.payload| < 0xff00 && s.c == c.(len := s.slen, nrtx := 0)
  {
    assert Send(data) in [Send(data)];
    var v := AppView({POLL}, 0, c.stopped, area);
    assert [Send(data)][1..] == [];
    assert Run(v, [Send(data)]) == Apply(v, Send(data));
  }

  lemma IdlePoll(c: Conn, slen: u16, area: seq<byte>)
    requires Room(c, area) && |area| < 0xff00 && c.state == ESTABLISHED && c.len == 0 && c.mss > 0 && slen > 0
    ensures var s := Poll(c, slen, area, []); s.out == Emit(ACK_PSH, false, area[..Min(slen, c.mss)])
  {
    assert Run(AppView({POLL}, slen, c.stopped, area), []) == AppView({POLL}, slen, c.stopped, area);
  }

  // ----- runs of the two endpoints -----

  datatype World = World(a: Endpoint, b: Endpoint, ab: set<Flight>, ba: set<Flight>)

  /** What happens to one endpoint: a segment on the channel reaches it, the timer ticks, it is
      polled, or a SYN makes the passive side fill a slot with initial sequence number iss. */
  datatype Event =
    | Receive(f: Flight, slen: u16, turn: Turn)
    | Tick(turn: Turn)
    | PollRequest(slen: u16, turn: Turn)
    | TakeSyn(f: Flight, slot: Conn, iss: Quad, turn: Turn)

  predicate Alive(x: Endpoint) {
    x.born && x.c.state != CLOSED
  }

  ghost function StepOf(x: Endpoint, ev: Event, tcpMss: u16): Step
    requires Alive(x) && !ev.TakeSyn? && Equipped(x.c, ev.turn, tcpMss)
  {
    match ev
    case Receive(f, slen, turn) => Arrive(x.c, slen, f.seg, turn.area, turn.calls, tcpMss)
    case Tick(turn) => Timer(x.c, turn.area, turn.calls)
    case PollRequest(slen, turn) => Poll(x.c, slen, turn.area, turn.calls)
  }

  /** The events possible at x, with a polite application and a poll that finds no leftovers. */
  ghost predicate Possible(x: Endpoint, ev: Event, yx: set<Flight>, tcpMss: u16) {
    && (ev.Receive? || ev.TakeSyn? ==> ev.f in yx)
    && if ev.TakeSyn? then !x.born && !x.active && ev.f.seg.flags == SYN && 44 <= |ev.turn.area|
       else Alive(x) ==>
         && Equipped(x.c, ev.turn, tcpMss)
         && (ev.Receive? ==> ev.f.seg.body <= ev.turn.area)
         && (ev.PollRequest? ==> ev.slen == 0 || Submission(ev.turn.calls) != [])
         && PoliteStep(x, StepOf(x, ev, tcpMss), if ev.PollRequest? then ev.slen else 0, ev.turn)
  }

  /** A segment for an endpoint without a live connection is answered with a RST. */
  ghost function Refuse(ev: Event, host: Addr): set<Flight> {
    if ev.Receive? && !ev.f.seg.flags.rst then {Flight(0, 0, ResetOf(ev.f.seg, host))} else {}
  }

  ghost function MoveTo(x: Endpoint, ev: Event, yx: set<Flight>, tcpMss: u16): Endpoint
    requires Possible(x, ev, yx, tcpMss)
  {
    if ev.TakeSyn? then
      x.(c := Accept(ev.slot, ev.f.seg, ev.iss, ev.turn.area, tcpMss), born := true, iss := ev.iss, rcv := 1)
    else if Alive(x) then Moved(x, StepOf(x, ev, tcpMss), ev.turn.calls)
    else x
  }

  ghost function Sends(x: Endpoint, ev: Event, yx: set<Flight>, host: Addr, tcpMss: u16): set<Flight>
    requires Possible(x, ev, yx, tcpMss)
  {
    if ev.TakeSyn? then
      var x' := MoveTo(x, ev, yx, tcpMss);
      {Flight(0, 1, Compose(x'.c, host, tcpMss, SYN_ACK, true, []))}
    else if Alive(x) then
      Launched(MoveTo(x, ev, yx, tcpMss), StepOf(x, ev, tcpMss), if ev.Receive? then Some(ev.f.seg) else None, host,
               tcpMss)
    else Refuse(ev, host)
  }

  lemma BirthKeeps(x: Endpoint, y: Endpoint, xy: set<Flight>, yx: set<Flight>, ev: Event, host: Addr, tcpMss: u16)
    requires Linked(x, y, xy, yx) && ev.TakeSyn? && Possible(x, ev, yx, tcpMss)
    ensures Linked(MoveTo(x, ev, yx, tcpMss), y, xy + Sends(x, ev, yx, host, tcpMss), yx)
  {
    var x' := MoveTo(x, ev, yx, tcpMss);
    assert Carries(y, ev.f);
    PlusZero(y.iss);
    PlusZero(x'.iss);
    assert y.rcv == 0;
    assert Local(x') && Out(x', y, xy) && Out(y, x', yx);
    EmitKeeps(x', y, xy, yx, host, tcpMss, SYN_ACK, true, []);
  }

  /** Whatever happens at one endpoint, the two sides stay linked. */
  lemma MoveKeeps(x: Endpoint, y: Endpoint, xy: set<Flight>, yx: set<Flight>, ev: Event, host: Addr, tcpMss: u16)
    requires Linked(x, y, xy, yx) && Possible(x, ev, yx, tcpMss)
    requires Total(MoveTo(x, ev, yx, tcpMss)) < 0x1_0000_0000
    ensures Linked(MoveTo(x, ev, yx, tcpMss), y, xy + Sends(x, ev, yx, host, tcpMss), yx)
  {
    if ev.TakeSyn? {
      BirthKeeps(x, y, xy, yx, ev, host, tcpMss);
    } else if !Alive(x) {
      if ev.Receive? && !ev.f.seg.flags.rst {
        LaunchKeeps(x, y, xy, yx, Flight(0, 0, ResetOf(ev.f.seg, host)));
      } else {
        assert xy + {} == xy;
      }
    } else {
      var s := StepOf(x, ev, tcpMss);
      match ev
      case Receive(f, slen, turn) => ArriveKeepsLinked(x, y, xy, yx, f, s, slen, turn, host, tcpMss);
      case Tick(turn) => TickKeepsLinked(x, y, xy, yx, s, turn, host, tcpMss);
      case PollRequest(slen, turn) => PollKeepsLinked(x, y, xy, yx, s, slen, turn, host, tcpMss);
    }
  }

  lemma PollKeepsLinked(x: Endpoint, y: Endpoint, xy: set<Flight>, yx: set<Flight>, s: Step, slen: u16, turn: Turn,
                        host: Addr, tcpMss: u16)
    requires Linked(x, y, xy, yx) && x.born && Equipped(x.c, turn, tcpMss)
    requires s == Poll(x.c, slen, turn.area, turn.calls) && (slen == 0 || Submission(turn.calls) != [])
    requires PoliteStep(x, s, slen, turn) && Total(Moved(x, s, turn.calls)) < 0x1_0000_0000
    ensures Lands(Moved(x, s, turn.calls), s, y, xy, yx, None, host, tcpMss)
  {
    if x.c.state == ESTABLISHED && x.c.len == 0 {
      IdleKeepsLinked(x, y, xy, yx, s, slen, turn, host, tcpMss);
    } else {
      MovedStill(x, s, turn.calls);
      assert x.(c := s.c) == x;
      EmitStep(x, s, y, xy, yx, host, tcpMss);
    }
  }

  /** The two hosts: addresses and maximum segment sizes. */
  datatype Config = Config(hostA: Addr, mssA: u16, hostB: Addr, mssB: u16)

  ghost predicate Can(w: World, atA: bool, ev: Event, cfg: Config) {
    if atA then Possible(w.a, ev, w.ba, cfg.mssA) else Possible(w.b, ev, w.ab, cfg.mssB)
  }

  ghost function Next(w: World, atA: bool, ev: Event, cfg: Config): World
    requires Can(w, atA, ev, cfg)
  {
    if atA then w.(a := MoveTo(w.a, ev, w.ba, cfg.mssA), ab := w.ab + Sends(w.a, ev, w.ba, cfg.hostA, cfg.mssA))
    else w.(b := MoveTo(w.b, ev, w.ab, cfg.mssB), ba := w.ba + Sends(w.b, ev, w.ab, cfg.hostB, cfg.mssB))
  }

  ghost predicate Runs(w: World, evs: seq<(bool, Event)>, cfg: Config)
    decreases |evs|
  {
    evs == [] || (Can(w, evs[0].0, evs[0].1, cfg) && Runs(Next(w, evs[0].0, evs[0].1, cfg), evs[1..], cfg))
  }

  ghost function After(w: World, evs: seq<(bool, Event)>, cfg: Config): World
    requires Runs(w, evs, cfg)
    decreases |evs|
  {
    if evs == [] then w else After(Next(w, evs[0].0, evs[0].1, cfg), evs[1..], cfg)
  }

  /** A has called uip_connect, B listens, and nothing is on the channel. */
  ghost predicate Start(w: World) {
    && w.a.born && w.a.active && w.a.c.state == SYN_SENT && !w.a.c.stopped && w.a.c.len == 1 && w.a.c.sndNxt == w.a.iss
    && !w.b.born && !w.b.active && w.b.c.state == CLOSED && !w.b.c.stopped
    && w.a.sent == [] && w.b.sent == [] && !w.a.fin && !w.b.fin && w.a.rcv == 0 && w.b.rcv == 0
    && w.a.delivered == [] && w.b.delivered == [] && w.ab == {} && w.ba == {}
  }

  ghost predicate Both(w: World) {
    Linked(w.a, w.b, w.ab, w.ba)
  }

  lemma SwapLinked(x: Endpoint, y: Endpoint, xy: set<Flight>, yx: set<Flight>)
    requires Linked(x, y, xy, yx)
    ensures Linked(y, x, yx, xy)
  {
  }

  lemma NextKeeps(w: World, atA: bool, ev: Event, cfg: Config)
    requires Both(w) && Can(w, atA, ev, cfg)
    requires Total(Next(w, atA, ev, cfg).a) < 0x1_0000_0000 && Total(Next(w, atA, ev, cfg).b) < 0x1_0000_0000
    ensures Both(Next(w, atA, ev, cfg))
  {
    if atA {
      MoveKeeps(w.a, w.b, w.ab, w.ba, ev, cfg.hostA, cfg.mssA);
    } else {
      SwapLinked(w.a, w.b, w.ab, w.ba);
      MoveKeeps(w.b, w.a, w.ba, w.ab, ev, cfg.hostB, cfg.mssB);
      var w' := Next(w, atA, ev, cfg);
      SwapLinked(w'.b, w'.a, w'.ba, w'.ab);
    }
  }

  lemma {:induction false} TotalsGrow(w: World, evs: seq<(bool, Event)>, cfg: Config)
    requires Runs(w, evs, cfg)
    ensures Total(w.a) <= Total(After(w, evs, cfg).a) && Total(w.b) <= Total(After(w, evs, cfg).b)
    decreases |evs|
  {
    if evs != [] {
      TotalsGrow(Next(w, evs[0].0, evs[0].1, cfg), evs[1..], cfg);
    }
  }

  lemma FirstKeeps(w: World, evs: seq<(bool, Event)>, cfg: Config)
    requires Both(w) && evs != [] && Runs(w, evs, cfg)
    requires Total(After(w, evs, cfg).a) < 0x1_0000_0000 && Total(After(w, evs, cfg).b) < 0x1_0000_0000
    ensures Both(Next(w, evs[0].0, evs[0].1, cfg))
  {
    TotalsGrow(Next(w, evs[0].0, evs[0].1, cfg), evs[1..], cfg);
    NextKeeps(w, evs[0].0, evs[0].1, cfg);
  }

  lemma {:induction false} RunKeeps(w: World, evs: seq<(bool, Event)>, cfg: Config)
    requires Both(w) && Runs(w, evs, cfg)
    requires Total(After(w, evs, cfg).a) < 0x1_0000_0000 && Total(After(w, evs, cfg).b) < 0x1_0000_0000
    ensures Both(After(w, evs, cfg))
    decreases |evs|
  {
    if evs != [] {
      FirstKeeps(w, evs, cfg);
      RunKeeps(Next(w, evs[0].0, evs[0].1, cfg), evs[1..], cfg);
    }
  }

  /** What the peer of x has been given of x's stream. */
  predicate InOrder(x: Endpoint, y: Endpoint) {
    && y.delivered <= x.sent
    && (y.c.state in {SYN_RCVD, ESTABLISHED} ==> |y.delivered| == AckedBytes(x) || |y.delivered| == |x.sent|)
    && (x.c.state == ESTABLISHED ==> |x.sent| == AckedBytes(x) + x.c.len)
    && (y.c.state == LAST_ACK ==> y.delivered == x.sent && x.fin)
  }

  /** Over any run of fewer than 2^32 bytes in each direction, whatever the channel loses,
      duplicates or reorders: the bytes delivered are a prefix of those submitted; an endpoint that
      has not closed has been given either what the sender knows to be acknowledged or that and
      the chunk in flight; and one that answered the peer's FIN has been given everything. */
  lemma Delivery(w: World, evs: seq<(bool, Event)>, cfg: Config)
    requires Start(w) && Runs(w, evs, cfg)
    requires |After(w, evs, cfg).a.sent| < 0x1_0000_0000 - 2 && |After(w, evs, cfg).b.sent| < 0x1_0000_0000 - 2
    ensures var w' := After(w, evs, cfg); InOrder(w'.a, w'.b) && InOrder(w'.b, w'.a)
  {
    PlusZero(w.a.iss);
    RunKeeps(w, evs, cfg);
  }
}
