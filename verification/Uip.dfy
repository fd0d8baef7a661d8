/** uip_process on the bytes of the packet buffer and the table of connections, one method per
    label of the source. Every method is proved against the functions of module Tcp. */
module Uip {
  import opened Bytes
  import opened Checksum
  import opened Tcp
  import opened Packet
  import opened TcpTable
  import opened Adjust

  class Stack {
    const bufsize: nat              // UIP_BUFSIZE
    const buf: array<byte>          // uip_buf
    const conns: array<Conn>        // uip_conns
    const ports: array<u16>         // uip_listenports
    const host: Addr                // uip_hostaddr
    const bigEndian: bool           // the byte order of the machine

    var len: u16                    // uip_len
    var slen: u16                   // uip_slen
    var flags: set<Flag>            // uip_flags
    var cur: nat                    // uip_conn, as an index
    var appdata: nat                // uip_appdata, as an index into uip_buf
    var iss: Quad
    var ipid: u16
    var lastport: u16

    ghost predicate Valid()
      reads this, conns
    {
      && 96 <= bufsize <= 0xff00 && buf.Length == bufsize + 2
      && 0 < conns.Length < 0x100 && cur < conns.Length
      && (buf as object) != ports
      && lastport < 32000
      && forall i :: 0 <= i < conns.Length ==>
        conns[i].len <= Mss() && conns[i].mss <= Mss() && conns[i].initialmss <= Mss()
    }

    /** UIP_TCP_MSS. */
    function Mss(): u16
      requires 96 <= bufsize <= 0xff00
    {
      bufsize - 54
    }

    /** The buffer from uip_sappdata on. */
    ghost function Area(): seq<byte>
      requires buf.Length >= HDR
      reads buf
    {
      buf[..][54..]
    }

    // ----- checksums -----

    method IpChksum() returns (sum: u16)
      requires buf.Length >= HDR
      ensures sum == IpSum(buf[..])
    {
      sum := Chksum(0, buf, 14, 20);
      assert buf[14..34] == buf[..][14..34];
      if sum == 0 {
        sum := 0xffff;
      }
    }

    /** upper_layer_chksum, if what it reads lies in the buffer. */
    method TcpChksum() returns (sum: u16)
      requires HDR <= buf.Length < 65550 && ReadsInside(buf[..], buf.Length)
      ensures 20 <= IpLen(buf[..]) && 14 + IpLen(buf[..]) <= buf.Length
      ensures sum == TcpSum(buf[..])
    {
      ReadsInsideExactly(buf[..], buf.Length);
      var ipLen := Read16(16);
      var upper := Minus16(ipLen, 20);
      sum := upper + PROTO_TCP;
      sum := Chksum(sum, buf, 26, 8);
      assert buf[26..34] == buf[..][26..34];
      sum := Chksum(sum, buf, 34, upper);
      assert buf[34..34 + upper] == buf[..][34..14 + IpLen(buf[..])];
      if sum == 0 {
        sum := 0xffff;
      }
    }

    // ----- writing fields -----

    method Put32(i: nat, q: Quad)
      requires i + 4 <= buf.Length
      modifies buf
      ensures forall j :: 0 <= j < buf.Length && !(i <= j < i + 4) ==> buf[j] == old(buf[j])
      ensures At32(buf[..], i) == q
    {
      buf[i], buf[i + 1], buf[i + 2], buf[i + 3] := q.b0, q.b1, q.b2, q.b3;
    }

    method PutAddr(i: nat, a: Addr)
      requires i + 4 <= buf.Length
      modifies buf
      ensures forall j :: 0 <= j < buf.Length && !(i <= j < i + 4) ==> buf[j] == old(buf[j])
      ensures AddrAt(buf[..], i) == a
    {
      buf[i], buf[i + 1] := a.hi / 0x100, a.hi % 0x100;
      buf[i + 2], buf[i + 3] := a.lo / 0x100, a.lo % 0x100;
    }

    // ----- the tail of uip_process -----

    /** The constant fields of the IP header, the next identifier, and a zero checksum. */
    method FillIpHeader()
      requires buf.Length >= HDR
      modifies buf, this`ipid
      ensures ipid == (old(ipid) + 1) % 0x1_0000 && At16(buf[..], 18) == ipid
      ensures buf[14] == 0x45 && buf[15] == 0 && buf[20] == 0 && buf[21] == 0 && buf[24] == 0 && buf[25] == 0
      ensures forall j :: 0 <= j < buf.Length && !(14 <= j < 16 || 18 <= j < 22 || 24 <= j < 26) ==>
        buf[j] == old(buf[j])
    {
      buf[14], buf[15] := 0x45, 0;
      buf[20], buf[21] := 0, 0;
      ipid := (ipid + 1) % 0x1_0000;
      Put16(buf, 18, ipid);
      buf[24], buf[25] := 0, 0;
    }

    /** `ipchksum = ~(uip_ipchksum())` on a header whose checksum field is zero. */
    method SealIpHeader()
      requires buf.Length >= HDR && buf[24] == 0 && buf[25] == 0
      modifies buf
      ensures IpSum(buf[..]) == 0xffff
      ensures forall j :: 0 <= j < buf.Length && !(24 <= j < 26) ==> buf[j] == old(buf[j])
    {
      var sum := IpChksum();
      Put16(buf, 24, 0xffff - sum);
      SealIp(old(buf[..]), buf[..]);
    }

    /** `tcpchksum = 0; tcpchksum = ~(uip_tcpchksum())`. */
    method SealTcpHeader()
      requires HDR <= buf.Length < 65550 && 40 <= IpLen(buf[..]) && 14 + IpLen(buf[..]) <= buf.Length
      modifies buf
      ensures IpLen(buf[..]) == old(IpLen(buf[..])) && TcpSum(buf[..]) == 0xffff
      ensures forall j :: 0 <= j < buf.Length && !(50 <= j < 52) ==> buf[j] == old(buf[j])
    {
      buf[50], buf[51] := 0, 0;
      ReadsInsideExactly(buf[..], buf.Length);
      var sum := TcpChksum();
      ghost var before := buf[..];
      Put16(buf, 50, 0xffff - sum);
      SealTcp(before, buf[..]);
    }

    /** Label `ip_send_nolen`. */
    method IpSendNolen()
      requires buf.Length >= HDR && 40 <= IpLen(buf[..]) && 14 + IpLen(buf[..]) <= buf.Length
      requires buf[22] == TTL && buf[23] == PROTO_TCP && TcpSum(buf[..]) == 0xffff
      modifies buf, this`ipid, this`flags
      ensures Sealed(buf[..]) && SegOf(buf[..]) == SegOf(old(buf[..]))
      ensures flags == {} && ipid == (old(ipid) + 1) % 0x1_0000 && At16(buf[..], 18) == ipid
    {
      FillAndSealIp();
      SegOfFrame(old(buf[..]), buf[..]);
      TcpSumFrame(old(buf[..]), buf[..]);
      flags := {};
    }

    method FillAndSealIp()
      requires buf.Length >= HDR
      modifies buf, this`ipid
      ensures ipid == (old(ipid) + 1) % 0x1_0000 && At16(buf[..], 18) == ipid && IpSum(buf[..]) == 0xffff
      ensures buf[14] == 0x45 && buf[15] == 0 && buf[20] == 0 && buf[21] == 0
      ensures forall j :: 0 <= j < buf.Length && !(14 <= j < 16 || 18 <= j < 22 || 24 <= j < 26) ==>
        buf[j] == old(buf[j])
    {
      FillIpHeader();
      SealIpHeader();
    }

    /** TTL, length and urgent pointer. */
    method FillLength()
      requires buf.Length >= HDR
      modifies buf
      ensures IpLen(buf[..]) == len && buf[22] == TTL && buf[52] == 0 && buf[53] == 0
      ensures forall j :: 0 <= j < buf.Length && !(16 <= j < 18 || j == 22 || 52 <= j < 54) ==> buf[j] == old(buf[j])
    {
      buf[22] := TTL;
      Put16(buf, 16, len);
      buf[52], buf[53] := 0, 0;
    }

    /** Label `tcp_send_noconn`. */
    method TcpSendNoconn()
      requires HDR <= buf.Length < 65550 && 40 <= len && 14 + len <= buf.Length && buf[23] == PROTO_TCP
      modifies buf, this`ipid, this`flags
      ensures Sealed(buf[..])
      ensures SegOf(buf[..]) == Lengthened(old(buf[..]), len)
      ensures flags == {} && ipid == (old(ipid) + 1) % 0x1_0000 && At16(buf[..], 18) == ipid
    {
      ghost var b0 := buf[..];
      FillLength();
      ghost var b1 := buf[..];
      SegOfLengthened(b0, b1, len);
      SealTcpHeader();
      ghost var b2 := buf[..];
      SegOfFrame(b1, b2);
      IpSendNolen();
    }

    /** The fields that come from the connection. */
    method FillFromConn(c: Conn)
      requires 96 <= bufsize <= 0xff00 && buf.Length == bufsize + 2
      modifies buf
      ensures forall j :: 0 <= j < buf.Length && !(j == 23 || 26 <= j < 46 || 48 <= j < 50) ==> buf[j] == old(buf[j])
      ensures buf[23] == PROTO_TCP
      ensures AddrAt(buf[..], 26) == host && AddrAt(buf[..], 30) == c.ripaddr
      ensures At16(buf[..], 34) == c.lport && At16(buf[..], 36) == c.rport
      ensures At32(buf[..], 38) == c.sndNxt && At32(buf[..], 42) == c.rcvNxt
      ensures At16(buf[..], 48) == if c.stopped then 0 else Mss()
    {
      Put32(42, c.rcvNxt);
      Put32(38, c.sndNxt);
      buf[23] := PROTO_TCP;
      FillEndpoints(c);
      Put16(buf, 48, if c.stopped then 0 else Mss());
    }

    method FillEndpoints(c: Conn)
      requires buf.Length >= HDR
      modifies buf
      ensures forall j :: 0 <= j < buf.Length && !(26 <= j < 38) ==> buf[j] == old(buf[j])
      ensures AddrAt(buf[..], 26) == host && AddrAt(buf[..], 30) == c.ripaddr
      ensures At16(buf[..], 34) == c.lport && At16(buf[..], 36) == c.rport
    {
      Put16(buf, 34, c.lport);
      Put16(buf, 36, c.rport);
      PutAddr(26, host);
      PutAddr(30, c.ripaddr);
    }

    /** Label `tcp_send`: the segment is the connection's, with the flags, data offset and bytes
        that are in the buffer. */
    method TcpSend()
      requires Valid() && 40 <= len && 14 + len <= buf.Length
      modifies buf, this`ipid, this`flags
      ensures Sealed(buf[..]) && flags == {}
      ensures SegOf(buf[..]) == FromConn(conns[cur], host, Mss(), old(buf[46]), old(buf[47]), len,
                                         old(buf[..])[54..14 + len])
    {
      FillFromConn(conns[cur]);
      assert buf[..][54..14 + len] == old(buf[..])[54..14 + len];
      TcpSendNoconn();
    }

    /** What the engine leaves for the driver: no packet, or this segment with valid checksums. */
    ghost predicate Shipped(out: Option<Segment>)
      requires buf.Length >= HDR
      reads this, buf
    {
      match out
      case None => len == 0
      case Some(seg) => Sealed(buf[..]) && SegOf(buf[..]) == seg && len == seg.len
    }

    /** Label `drop`. */
    method Drop()
      modifies this`len, this`flags
      ensures len == 0 && flags == {}
    {
      len, flags := 0, {};
    }

    /** Label `tcp_send_noopts`, with `BUF->flags = f` before it. */
    method TcpSendNoopts(f: Ctl)
      requires Valid() && 40 <= len && 14 + len <= buf.Length && len < 0xff00
      modifies buf, this`ipid, this`flags
      ensures flags == {}
      ensures Shipped(Some(Compose(conns[cur], host, Mss(), f, false, old(buf[..])[54..14 + len])))
    {
      buf[47] := ByteOf(f);
      buf[46] := 0x50;
      assert buf[..][54..14 + len] == old(buf[..])[54..14 + len];
      CtlOfByteOf(f);
      TcpSend();
    }

    /** Label `tcp_send_nodata`; `tcp_send_ack` is this with ACK. */
    method TcpSendNodata(f: Ctl)
      requires Valid()
      modifies buf, this`ipid, this`flags, this`len
      ensures Shipped(Some(Compose(conns[cur], host, Mss(), f, false, []))) && flags == {}
    {
      len := 40;
      TcpSendNoopts(f);
    }

    /** Labels `tcp_send_synack` and `tcp_send_syn`: f is SYN|ACK or SYN. */
    method TcpSendSyn(f: Ctl)
      requires Valid()
      modifies buf, this`ipid, this`flags, this`len
      ensures Shipped(Some(Compose(conns[cur], host, Mss(), f, true, []))) && flags == {}
    {
      buf[47] := ByteOf(f);
      buf[54], buf[55], buf[56], buf[57] := 2, 4, Mss() / 0x100, Mss() % 0x100;
      len := 44;
      buf[46] := 0x60;
      assert buf[..][54..58] == [2, 4, Mss() / 0x100, Mss() % 0x100];
      CtlOfByteOf(f);
      TcpSend();
    }

    // ----- the application -----

    /** uip_send. */
    method Send(data: seq<byte>)
      requires Valid() && |data| <= buf.Length - 54
      modifies buf, this`slen
      ensures forall j :: 0 <= j < 54 ==> buf[j] == old(buf[j])
      ensures slen == (if |data| > 0 then |data| else old(slen))
      ensures Area() == data + old(Area())[|data|..]
    {
      if |data| > 0 {
        slen := |data|;
        var i := 0;
        while i < |data|
          invariant 0 <= i <= |data| && slen == |data|
          invariant forall j :: 0 <= j < buf.Length && !(54 <= j < 54 + i) ==> buf[j] == old(buf[j])
          invariant forall j :: 0 <= j < i ==> buf[54 + j] == data[j]
        {
          buf[54 + i] := data[i];
          i := i + 1;
        }
      }
    }

    /** The globals an application can change. */
    ghost function View(): AppView
      requires Valid() && cur < conns.Length
      reads this, conns, buf
    {
      AppView(flags, slen, conns[cur].stopped, Area())
    }

    /** One call of the application into uIP. */
    method Serve(call: AppCall)
      requires Valid() && Fits([call], Area())
      modifies buf, conns, this`slen, this`flags
      ensures Valid() && View() == Apply(old(View()), call)
      ensures conns[..] == old(conns[..])[cur := old(conns[cur]).(stopped := conns[cur].stopped)]
      ensures forall j :: 0 <= j < 54 ==> buf[j] == old(buf[j])
    {
      match call {
        case Send(data) =>
          assert call in [call];
          Send(data);
          assert |data| == 0 ==> Area() == old(Area());
        case Close => flags := {CLOSE};
        case Abort => flags := {ABORT};
        case Stop => conns[cur] := conns[cur].(stopped := true);
        case Restart =>
          flags := flags + {NEWDATA};
          conns[cur] := conns[cur].(stopped := false);
      }
    }

    /** All calls the application makes in one callback. */
    method ServeAll(calls: seq<AppCall>)
      requires Valid() && Fits(calls, Area())
      modifies buf, conns, this`slen, this`flags
      ensures Valid()
      ensures View() == Run(old(View()), calls)
      ensures conns[..] == old(conns[..])[cur := old(conns[cur]).(stopped := conns[cur].stopped)]
      ensures forall j :: 0 <= j < 54 ==> buf[j] == old(buf[j])
    {
      var i := 0;
      while i < |calls|
        invariant 0 <= i <= |calls| && Valid()
        invariant Fits(calls[i..], Area()) && |Area()| == old(|Area()|)
        invariant Run(View(), calls[i..]) == Run(old(View()), calls)
        invariant conns[..] == old(conns[..])[cur := old(conns[cur]).(stopped := conns[cur].stopped)]
        invariant forall j :: 0 <= j < 54 ==> buf[j] == old(buf[j])
      {
        assert calls[i..][0] == calls[i] && calls[i..][1..] == calls[i + 1..];
        assert calls[i] in calls[i..];
        Serve(calls[i]);
        i := i + 1;
      }
    }

    /** The data an application is shown now. */
    ghost function ShownData(): seq<byte>
      requires Valid() && 54 <= appdata
      reads this, buf, conns
    {
      if NEWDATA in flags then Shown(Area(), appdata - 54, len) else []
    }

    method ReadShown() returns (data: seq<byte>)
      requires Valid() && 54 <= appdata
      ensures data == ShownData()
    {
      data := [];
      if NEWDATA in flags && appdata + len <= buf.Length {
        data := buf[appdata..appdata + len];
        ShownIsSlice(buf[..], appdata, len);
      }
    }

    /** UIP_APPCALL(): the application is shown flags and data, and makes the calls given. */
    method AppCallback(calls: seq<AppCall>) returns (call: Option<Callback>)
      requires Valid() && Fits(calls, Area()) && 54 <= appdata
      modifies buf, conns, this`slen, this`flags
      ensures Valid()
      ensures View() == Run(old(View()), calls)
      ensures conns[..] == old(conns[..])[cur := old(conns[cur]).(stopped := conns[cur].stopped)]
      ensures forall j :: 0 <= j < 54 ==> buf[j] == old(buf[j])
      ensures call == Some(Callback(old(conns[cur]), old(flags), old(ShownData())))
    {
      var data := ReadShown();
      call := Some(Callback(conns[cur], flags, data));
      ServeAll(calls);
    }

    // ----- after a callback -----

    /** Step s has been taken by the current connection, and nothing else has changed. */
    ghost predicate Did(s: Step, before: seq<Conn>, seg: Option<Segment>)
      requires Valid() && |before| == conns.Length
      requires s.out.Emit? ==> |s.out.payload| < 0xff00
      reads this, buf, conns
    {
      && conns[..] == before[cur := s.c]
      && slen == s.slen && flags == {}
      && Shipped(OnWire(s, seg, host, Mss()))
    }

    /** Label `apprexmit`. */
    method AppRexmit()
      requires Valid()
      modifies buf, this`len, this`flags, this`ipid, this`appdata
      ensures Valid() && flags == {}
      ensures var c := conns[cur];
        Shipped(OnWire(Step(c, slen, Tcp.AppRexmit(c, slen, old(View())), None), None, host, Mss()))
    {
      appdata := 54;
      if slen > 0 && conns[cur].len > 0 {
        len := conns[cur].len + 40;
        assert buf[..][54..14 + len] == Area()[..conns[cur].len];
        TcpSendNoopts(ACK_PSH);
      } else if NEWDATA in flags {
        TcpSendNodata(ACK);
      } else {
        Drop();
      }
    }

    /** The part of `appsend` that settles how much is sent. */
    method PrepareSend()
      requires Valid()
      modifies conns, this`slen
      ensures Valid()
      ensures var r := Prepared(old(conns[cur]), old(View()));
        conns[..] == old(conns[..])[cur := r.0] && slen == r.1
    {
      if slen > 0 {
        if ACKDATA in flags {
          conns[cur] := conns[cur].(len := 0);
        }
        if conns[cur].len == 0 {
          if slen > conns[cur].mss {
            slen := conns[cur].mss;
          }
          conns[cur] := conns[cur].(len := slen);
        } else {
          slen := conns[cur].len;
        }
      }
      conns[cur] := conns[cur].(nrtx := 0);
    }

    /** Label `appsend`. */
    method AppSend(ghost call: Callback)
      requires Valid()
      modifies buf, conns, this`len, this`slen, this`flags, this`ipid, this`appdata
      ensures Valid() && Did(Tcp.AppSend(old(conns[cur]), old(View()), call), old(conns[..]), None)
    {
      if ABORT in flags {
        slen := 0;
        conns[cur] := Enter(conns[cur], CLOSED);
        TcpSendNodata(RST_ACK);
      } else if CLOSE in flags {
        slen := 0;
        conns[cur] := Enter(conns[cur], FIN_WAIT_1).(len := 1, nrtx := 0);
        TcpSendNodata(FIN_ACK);
      } else {
        SendNew(call);
      }
    }

    method SendNew(ghost call: Callback)
      requires Valid() && ABORT !in flags && CLOSE !in flags
      modifies buf, conns, this`len, this`slen, this`flags, this`ipid, this`appdata
      ensures Valid() && Did(Tcp.AppSend(old(conns[cur]), old(View()), call), old(conns[..]), None)
    {
      PrepareSend();
      AppRexmit();
    }

    /** UIP_APPCALL() followed by `appsend`: the rest of step s, begun when the table was `before`. */
    method CallAndSend(calls: seq<AppCall>, ghost s: Step, ghost before: seq<Conn>) returns (call: Option<Callback>)
      requires Valid() && Fits(calls, Area()) && 54 <= appdata
      requires |before| == conns.Length && conns[..] == before[cur := conns[cur]]
      requires s == Tcp.CallAndSend(conns[cur], flags, slen, ShownData(), Area(), calls)
      modifies buf, conns, this`len, this`slen, this`flags, this`ipid, this`appdata
      ensures Valid() && Did(s, before, None) && call == s.call
    {
      ghost var c := conns[cur];
      ghost var v := Call(c, flags, slen, Area(), calls);
      call := AppCallback(calls);
      assert View() == v && conns[cur] == c.(stopped := v.stopped);
      AppSend(call.value);
      assert conns[..] == before[cur := s.c];
    }

    /** UIP_APPCALL() followed by `drop`. */
    method CallAndDrop(calls: seq<AppCall>, ghost s: Step, ghost before: seq<Conn>) returns (call: Option<Callback>)
      requires Valid() && Fits(calls, Area()) && 54 <= appdata
      requires |before| == conns.Length && conns[..] == before[cur := conns[cur]]
      requires s == CallOnly(conns[cur], flags, slen, ShownData(), Area(), calls, Silent)
      modifies buf, conns, this`len, this`slen, this`flags
      ensures Valid() && Did(s, before, None) && call == s.call
    {
      call := AppCallback(calls);
      Drop();
      assert conns[..] == before[cur := s.c];
    }

    /** UIP_APPCALL() followed by `tcp_send_nodata` with the flags f. */
    method CallAndEmit(f: Ctl, calls: seq<AppCall>, ghost s: Step, ghost before: seq<Conn>)
      returns (call: Option<Callback>)
      requires Valid() && Fits(calls, Area()) && 54 <= appdata
      requires |before| == conns.Length && conns[..] == before[cur := conns[cur]]
      requires s == CallOnly(conns[cur], flags, slen, ShownData(), Area(), calls, Emit(f, false, []))
      modifies buf, conns, this`len, this`slen, this`flags, this`ipid
      ensures Valid() && Did(s, before, None) && call == s.call
    {
      call := AppCallback(calls);
      assert conns[..] == before[cur := s.c];
      TcpSendNodata(f);
    }

    // ----- an incoming segment for the current connection -----

    /** The control bits of the segment in the buffer. */
    method ReadCtl() returns (f: Ctl)
      requires buf.Length >= HDR
      ensures f == CtlOf(buf[47])
    {
      f := CtlBits(buf[47]);
      CtlBitsInverse(buf[47]);
      ByteOfInjective(f, CtlOf(buf[47]));
    }

    method ReadQuad(i: nat) returns (q: Quad)
      requires i + 4 <= buf.Length
      ensures q == At32(buf[..], i)
    {
      q := Quad(buf[i], buf[i + 1], buf[i + 2], buf[i + 3]);
    }

    method Read16(i: nat) returns (v: u16)
      requires i + 2 <= buf.Length
      ensures v == At16(buf[..], i)
    {
      v := (buf[i] as int) * 0x100 + buf[i + 1];
    }

    /** uip_add_rcv_nxt. */
    method AddRcvNxt(n: u16)
      requires Valid()
      modifies conns
      ensures Valid() && conns[..] == old(conns[..])[cur := Received(old(conns[cur]), n)]
    {
      var acc := Add32(conns[cur].rcvNxt, n);
      conns[cur] := conns[cur].(rcvNxt := acc);
    }

    /** The round-trip estimation of the acknowledgement code. */
    method EstimateRtt(c: Conn) returns (r: Rtt)
      ensures r == Estimate(Rtt(c.sa, c.sv, c.rto), c.rto - c.timer)
    {
      var m: int := SignedChar(c.rto - c.timer);
      m := SignedChar(m - c.sa / 8);
      var sa: int := U8(c.sa + m);
      if m < 0 {
        m := SignedChar(-m);
      }
      m := SignedChar(m - c.sv / 4);
      var sv: int := U8(c.sv + m);
      r := Rtt(sa, sv, U8(sa / 8 + sv));
    }

    /** The acknowledgement test: sets UIP_ACKDATA when all outstanding data is acknowledged. */
    method HandleAck(f: Ctl, ghost seg: Segment)
      requires Valid() && buf.Length >= HDR && seg == SegOf(buf[..]) && f == seg.flags && flags == {}
      modifies conns, this`flags
      ensures Valid()
      ensures conns[..] == old(conns[..])[cur :=
        if Acks(old(conns[cur]), seg) then TakeAck(old(conns[cur])) else old(conns[cur])]
      ensures flags == if Acks(old(conns[cur]), seg) then {ACKDATA} else {}
    {
      var c := conns[cur];
      if f.ack && c.len > 0 {
        var acc := Add32(c.sndNxt, c.len);
        var ackno := ReadQuad(42);
        if ackno == acc {
          var r := Rtt(c.sa, c.sv, c.rto);
          if c.nrtx == 0 {
            r := EstimateRtt(c);
          }
          conns[cur] := c.(sndNxt := acc, sa := r.sa, sv := r.sv, rto := r.rto, timer := r.rto, len := 0);
          flags := {ACKDATA};
        }
      }
    }

    /** The state of the engine when the switch on the connection state is reached. */
    ghost predicate AtSwitch(seg: Segment, acked: bool, calls: seq<AppCall>)
      requires Valid()
      reads this, conns, buf
    {
      && seg == SegOf(buf[..]) && buf[23] == PROTO_TCP && len == DataLen(seg) && appdata == 54 && Fits(calls, Area())
      && flags == if acked then {ACKDATA} else {}
    }

    method InSynRcvd(ghost seg: Segment, acked: bool, calls: seq<AppCall>) returns (call: Option<Callback>)
      requires Valid() && AtSwitch(seg, acked, calls) && conns[cur].state == SYN_RCVD
      modifies buf, conns, this`len, this`slen, this`flags, this`ipid, this`appdata
      ensures Valid()
      ensures var s := InState(old(conns[cur]), acked, old(slen), seg, old(Area()), calls, Mss());
        Did(s, old(conns[..]), Some(seg)) && call == s.call
    {
      if acked {
        call := TakeEstablishing(seg, calls);
      } else {
        Drop();
        call := None;
      }
    }

    /** The acknowledgement of our SYN|ACK. */
    method TakeEstablishing(ghost seg: Segment, calls: seq<AppCall>) returns (call: Option<Callback>)
      requires Valid() && AtSwitch(seg, true, calls) && conns[cur].state == SYN_RCVD
      modifies buf, conns, this`len, this`slen, this`flags, this`ipid, this`appdata
      ensures Valid()
      ensures var s := InState(old(conns[cur]), true, old(slen), seg, old(Area()), calls, Mss());
        Did(s, old(conns[..]), Some(seg)) && call == s.call
    {
      ghost var before := conns[..];
      ghost var s := InState(conns[cur], true, slen, seg, Area(), calls, Mss());
      Establish();
      slen := 0;
      assert s == Tcp.CallAndSend(conns[cur], flags, slen, ShownData(), Area(), calls);
      call := CallAndSend(calls, s, before);
    }

    /** The SYN|ACK is acknowledged, and data that came with the acknowledgement is taken. */
    method Establish()
      requires Valid()
      modifies conns, this`flags
      ensures Valid()
      ensures var c := Enter(old(conns[cur]), ESTABLISHED).(len := 0);
        conns[..] == old(conns[..])[cur := if len > 0 then Received(c, len) else c]
      ensures flags == if len > 0 then {CONNECTED, NEWDATA} else {CONNECTED}
    {
      conns[cur] := Enter(conns[cur], ESTABLISHED).(len := 0);
      flags := {CONNECTED};
      if len > 0 {
        flags := {CONNECTED, NEWDATA};
        AddRcvNxt(len);
      }
    }

    method InEstablished(ghost seg: Segment, f: Ctl, acked: bool, calls: seq<AppCall>) returns (call: Option<Callback>)
      requires Valid() && AtSwitch(seg, acked, calls) && conns[cur].state == ESTABLISHED && f == seg.flags
      modifies buf, conns, this`len, this`slen, this`flags, this`ipid, this`appdata
      ensures Valid()
      ensures var s := Tcp.InEstablished(old(conns[cur]), acked, old(slen), seg, old(Area()), calls);
        Did(s, old(conns[..]), Some(seg)) && call == s.call
    {
      if f.fin && !conns[cur].stopped {
        call := TakeFin(seg, acked, calls);
      } else {
        call := TakeSegment(seg, f, acked, calls);
      }
    }

    /** The callback for the peer's FIN: whatever the application says, our FIN goes out. */
    method CallAndFinAck(calls: seq<AppCall>, ghost r: Step, ghost before: seq<Conn>) returns (call: Option<Callback>)
      requires Valid() && Fits(calls, Area()) && 54 <= appdata
      requires |before| == conns.Length && conns[..] == before[cur := conns[cur]]
      requires r == CallOnly(conns[cur], flags, slen, ShownData(), Area(), calls, Emit(FIN_ACK, false, []))
      modifies buf, conns, this`len, this`slen, this`flags, this`ipid
      ensures Valid() && Did(r.(c := Enter(r.c, LAST_ACK).(len := 1, nrtx := 0)), before, None) && call == r.call
    {
      call := AppCallback(calls);
      conns[cur] := Enter(conns[cur], LAST_ACK).(len := 1, nrtx := 0);
      assert conns[..] == before[cur := Enter(r.c, LAST_ACK).(len := 1, nrtx := 0)];
      TcpSendNodata(FIN_ACK);
    }

    method TakeFin(ghost seg: Segment, acked: bool, calls: seq<AppCall>) returns (call: Option<Callback>)
      requires Valid() && AtSwitch(seg, acked, calls) && conns[cur].state == ESTABLISHED && seg.flags.fin &&
        !conns[cur].stopped
      modifies buf, conns, this`len, this`slen, this`flags, this`ipid
      ensures Valid()
      ensures var s := Tcp.InEstablished(old(conns[cur]), acked, old(slen), seg, old(Area()), calls);
        Did(s, old(conns[..]), Some(seg)) && call == s.call
    {
      if conns[cur].len > 0 {
        Drop();
        call := None;
      } else {
        call := TakeInOrderFin(seg, acked, calls);
      }
    }

    method TakeInOrderFin(ghost seg: Segment, acked: bool, calls: seq<AppCall>) returns (call: Option<Callback>)
      requires Valid() && AtSwitch(seg, acked, calls) && conns[cur].state == ESTABLISHED && seg.flags.fin &&
        !conns[cur].stopped
      requires conns[cur].len == 0
      modifies buf, conns, this`len, this`slen, this`flags, this`ipid
      ensures Valid()
      ensures var s := Tcp.InEstablished(old(conns[cur]), acked, old(slen), seg, old(Area()), calls);
        Did(s, old(conns[..]), Some(seg)) && call == s.call
    {
      ghost var before := conns[..];
      ghost var s := Tcp.InEstablished(conns[cur], acked, slen, seg, Area(), calls);
      ghost var data := if len > 0 then Shown(Area(), 0, len) else [];
      AbsorbFin();
      assert ShownData() == data;
      ghost var r := CallOnly(conns[cur], flags, slen, data, Area(), calls, Emit(FIN_ACK, false, []));
      assert s == r.(c := Enter(r.c, LAST_ACK).(len := 1, nrtx := 0));
      call := CallAndFinAck(calls, r, before);
    }

    /** The FIN and the data before it are acknowledged. */
    method AbsorbFin()
      requires Valid()
      modifies conns, this`flags
      ensures Valid()
      ensures conns[..] == old(conns[..])[cur := Received(old(conns[cur]), if len == 0xffff then 0 else 1 + len)]
      ensures flags == old(flags) + {CLOSE} + if len > 0 then {NEWDATA} else {}
    {
      AddRcvNxt(if len == 0xffff then 0 else 1 + len);
      flags := flags + {CLOSE};
      if len > 0 {
        flags := flags + {NEWDATA};
      }
    }

    /** Urgent data is skipped, new data is acknowledged, and the peer's window bounds the MSS. */
    method AbsorbSegment(ghost seg: Segment, f: Ctl, acked: bool, calls: seq<AppCall>)
      requires Valid() && AtSwitch(seg, acked, calls) && f == seg.flags
      modifies conns, this`len, this`flags, this`appdata
      ensures Valid() && conns[..] == old(conns[..])[cur := Absorbed(old(conns[cur]), seg)]
      ensures len == Minus16(DataLen(seg), DataFrom(seg)) && appdata == 54 + DataFrom(seg)
      ensures flags == old(flags) + if Accepted(old(conns[cur]), seg) > 0 then {NEWDATA} else {}
    {
      if f.urg {
        var urgp := Read16(52);
        appdata := appdata + urgp;
        len := Minus16(len, urgp);
      }
      if len > 0 && !conns[cur].stopped {
        flags := flags + {NEWDATA};
        AddRcvNxt(len);
      }
      UpdateMss();
    }

    /** The peer's window bounds the MSS; a zero window stands for the initial MSS. */
    method UpdateMss()
      requires Valid()
      modifies conns
      ensures Valid() && conns[..] == old(conns[..])[cur := TakeWindow(old(conns[cur]), At16(buf[..], 48))]
    {
      var wnd := Read16(48);
      if wnd > conns[cur].initialmss || wnd == 0 {
        wnd := conns[cur].initialmss;
      }
      conns[cur] := conns[cur].(mss := wnd);
    }

    /** The current connection has absorbed the segment, and the application is next if it is needed. */
    method AfterAbsorb(calls: seq<AppCall>, ghost s: Step, ghost before: seq<Conn>) returns (call: Option<Callback>)
      requires Valid() && Fits(calls, Area()) && 54 <= appdata
      requires |before| == conns.Length && conns[..] == before[cur := conns[cur]]
      requires s ==
        if NEWDATA in flags || ACKDATA in flags then Tcp.CallAndSend(conns[cur], flags, 0, ShownData(), Area(), calls)
        else Step(conns[cur], slen, Silent, None)
      modifies buf, conns, this`len, this`slen, this`flags, this`ipid, this`appdata
      ensures Valid() && Did(s, before, None) && call == s.call
    {
      if NEWDATA in flags || ACKDATA in flags {
        slen := 0;
        call := CallAndSend(calls, s, before);
      } else {
        Drop();
        call := None;
      }
    }

    /** The segment is absorbed, and the callback of step s is due if any flag is set. */
    method BeforeCall(ghost seg: Segment, f: Ctl, acked: bool, calls: seq<AppCall>, ghost s: Step)
      requires Valid() && AtSwitch(seg, acked, calls) && f == seg.flags && (!f.fin || conns[cur].stopped)
      requires s == Tcp.InEstablished(conns[cur], acked, slen, seg, Area(), calls)
      modifies conns, this`len, this`flags, this`appdata
      ensures Valid() && 54 <= appdata && conns[..] == old(conns[..])[cur := conns[cur]]
      ensures s ==
        if NEWDATA in flags || ACKDATA in flags then Tcp.CallAndSend(conns[cur], flags, 0, ShownData(), Area(), calls)
        else Step(conns[cur], slen, Silent, None)
    {
      ghost var c := conns[cur];
      AbsorbSegment(seg, f, acked, calls);
      assert ShownData() == if NEWDATA in flags then Shown(Area(), DataFrom(seg), Accepted(c, seg)) else [];
      InEstablishedByFlags(c, s, acked, slen, seg, Area(), calls, flags);
    }

    method TakeSegment(ghost seg: Segment, f: Ctl, acked: bool, calls: seq<AppCall>) returns (call: Option<Callback>)
      requires Valid() && AtSwitch(seg, acked, calls) && conns[cur].state == ESTABLISHED && f == seg.flags
      requires !f.fin || conns[cur].stopped
      modifies buf, conns, this`len, this`slen, this`flags, this`ipid, this`appdata
      ensures Valid()
      ensures var s := Tcp.InEstablished(old(conns[cur]), acked, old(slen), seg, old(Area()), calls);
        Did(s, old(conns[..]), Some(seg)) && call == s.call
    {
      ghost var before := conns[..];
      ghost var s := Tcp.InEstablished(conns[cur], acked, slen, seg, Area(), calls);
      BeforeCall(seg, f, acked, calls, s);
      call := AfterAbsorb(calls, s, before);
    }

    // ----- RST -----

    /** Exchange of the sequence and acknowledgement numbers, with the increment of the latter. */
    method FlipNumbers()
      requires buf.Length >= HDR
      modifies buf
      ensures forall j :: 0 <= j < buf.Length && !(38 <= j < 46) ==> buf[j] == old(buf[j])
      ensures At32(buf[..], 38) == old(At32(buf[..], 42)) && At32(buf[..], 42) == Plus(old(At32(buf[..], 38)), 1)
    {
      var seqno := ReadQuad(38);
      var ackno := ReadQuad(42);
      Put32(38, ackno);
      var next := Increment(seqno);
      Put32(42, next);
    }

    method FlipEndpoints()
      requires buf.Length >= HDR
      modifies buf
      ensures forall j :: 0 <= j < buf.Length && !(26 <= j < 38) ==> buf[j] == old(buf[j])
      ensures At16(buf[..], 34) == old(At16(buf[..], 36)) && At16(buf[..], 36) == old(At16(buf[..], 34))
      ensures AddrAt(buf[..], 30) == old(AddrAt(buf[..], 26)) && AddrAt(buf[..], 26) == host
    {
      buf[34], buf[35], buf[36], buf[37] := buf[36], buf[37], buf[34], buf[35];
      buf[30], buf[31], buf[32], buf[33] := buf[26], buf[27], buf[28], buf[29];
      PutAddr(26, host);
    }

    /** The header of a RST, but for what the common tail fills in. */
    method TurnAround()
      requires buf.Length >= HDR
      modifies buf
      ensures buf[23] == old(buf[23]) && buf[46] == 0x50 && buf[47] == ByteOf(RST_ACK)
      ensures At16(buf[..], 48) == old(At16(buf[..], 48))
      ensures At32(buf[..], 38) == old(At32(buf[..], 42)) && At32(buf[..], 42) == Plus(old(At32(buf[..], 38)), 1)
      ensures At16(buf[..], 34) == old(At16(buf[..], 36)) && At16(buf[..], 36) == old(At16(buf[..], 34))
      ensures AddrAt(buf[..], 30) == old(AddrAt(buf[..], 26)) && AddrAt(buf[..], 26) == host
    {
      buf[47] := ByteOf(RST_ACK);
      buf[46] := 0x50;
      FlipNumbers();
      FlipEndpoints();
    }

    /** Label `reset`. */
    method Reset(ghost seg: Segment)
      requires HDR <= buf.Length < 65550 && seg == SegOf(buf[..]) && buf[23] == PROTO_TCP
      modifies buf, this`len, this`flags, this`ipid
      ensures Shipped(if seg.flags.rst then None else Some(ResetOf(seg, host))) && flags == {}
    {
      var f := ReadCtl();
      if f.rst {
        Drop();
        return;
      }
      CtlOfByteOf(RST_ACK);
      TurnAround();
      len := 40;
      assert buf[..][54..54] == [];
      TcpSendNoconn();
    }

    // ----- the MSS option -----

    /** The option loop of a SYN, which must be one that ends. */
    method ParseMss()
      requires Valid() && OptionsEnd(buf[46] / 16, Area())
      modifies conns
      ensures Valid()
      ensures conns[..] == old(conns[..])[cur := WithMss(old(conns[cur]), MssOption(buf[46] / 16, Area()), Mss())]
    {
      ghost var area := Area();
      if buf[46] / 16 > 5 {
        var limit := (buf[46] / 16 - 5) * 4;
        var c: byte := 0;
        ghost var rounds: nat := limit + 1;
        while c < limit
          invariant conns[..] == old(conns[..])
          invariant EndsWithin(area, limit, c, rounds)
          invariant ScanOptions(area, limit, c, rounds) == MssOption(buf[46] / 16, area)
          decreases rounds
        {
          assert buf[54 + c] == area[c] && buf[55 + c] == area[c + 1] && buf[56 + c] == area[c + 2] &&
            buf[57 + c] == area[c + 3];
          rounds := rounds - 1;
          if buf[54 + c] == 0 {
            return;
          } else if buf[54 + c] == 1 {
            c := Add8(c, 1);
          } else if buf[54 + c] == 2 && buf[55 + c] == 4 {
            SetMss((buf[56 + c] as int) * 0x100 + buf[57 + c]);
            return;
          } else {
            if buf[55 + c] == 0 {
              return;
            }
            c := Add8(c, buf[55 + c]);
          }
        }
      }
    }

    /** The value of the option, cut to UIP_TCP_MSS. */
    method SetMss(v: u16)
      requires Valid()
      modifies conns
      ensures Valid() && conns[..] == old(conns[..])[cur := WithMss(old(conns[cur]), Some(v), Mss())]
    {
      var mss := Min(v, Mss());
      conns[cur] := conns[cur].(initialmss := mss, mss := mss);
    }

    // ----- SYN_SENT -----

    method InSynSent(ghost seg: Segment, f: Ctl, acked: bool, calls: seq<AppCall>) returns (call: Option<Callback>)
      requires Valid() && AtSwitch(seg, acked, calls) && conns[cur].state == SYN_SENT && f == seg.flags
      requires acked && f == SYN_ACK ==> OptionsEnd(seg.doff, Area())
      modifies buf, conns, this`len, this`slen, this`flags, this`ipid, this`appdata
      ensures Valid()
      ensures var s := InState(old(conns[cur]), acked, old(slen), seg, old(Area()), calls, Mss());
        Did(s, old(conns[..]), Some(seg)) && call == s.call
    {
      ghost var before := conns[..];
      ghost var s := InState(conns[cur], acked, slen, seg, Area(), calls, Mss());
      if acked && f == SYN_ACK {
        TakeSynAck(seg);
        flags := {CONNECTED, NEWDATA};
        len := 0;
        slen := 0;
        assert s == Tcp.CallAndSend(conns[cur], flags, slen, ShownData(), Area(), calls);
        call := CallAndSend(calls, s, before);
      } else {
        flags := {ABORT};
        call := AbortConnect(seg, calls, s, before);
      }
    }

    method TakeSynAck(ghost seg: Segment)
      requires Valid() && seg == SegOf(buf[..]) && OptionsEnd(seg.doff, Area())
      modifies conns
      ensures Valid()
      ensures conns[..] == old(conns[..])[cur :=
        Synchronized(old(conns[cur]), seg, Area(), Mss())]
    {
      ParseMss();
      var seqno := ReadQuad(38);
      conns[cur] := Enter(conns[cur], ESTABLISHED).(rcvNxt := seqno);
      AddRcvNxt(1);
      conns[cur] := conns[cur].(len := 0);
    }

    /** The application is told that the connection failed, and the peer gets a RST. */
    method AbortConnect(ghost seg: Segment, calls: seq<AppCall>, ghost s: Step, ghost before: seq<Conn>)
      returns (call: Option<Callback>)
      requires Valid() && Fits(calls, Area()) && 54 <= appdata && seg == SegOf(buf[..]) && buf[23] == PROTO_TCP &&
        flags == {ABORT}
      requires |before| == conns.Length && conns[..] == before[cur := conns[cur]]
      requires var r := CallOnly(conns[cur], {ABORT}, slen, [], Area(), calls, Bounce); s == r.(c := Enter(r.c, CLOSED))
      modifies buf, conns, this`len, this`slen, this`flags, this`ipid
      ensures Valid() && Did(s, before, Some(seg)) && call == s.call
    {
      ghost var b := buf[..];
      call := AppCallback(calls);
      conns[cur] := Enter(conns[cur], CLOSED);
      assert conns[..] == before[cur := s.c];
      SegOfHeader(b, buf[..]);
      Reset(SegOf(buf[..]));
    }

    // ----- after our FIN -----

    method DiscardData()
      requires Valid()
      modifies conns
      ensures Valid()
      ensures conns[..] == old(conns[..])[cur := if len > 0 then Received(old(conns[cur]), len) else old(conns[cur])]
    {
      if len > 0 {
        AddRcvNxt(len);
      }
    }

    method InFinWait1(ghost seg: Segment, f: Ctl, acked: bool, calls: seq<AppCall>) returns (call: Option<Callback>)
      requires Valid() && AtSwitch(seg, acked, calls) && conns[cur].state == FIN_WAIT_1 && f == seg.flags
      modifies buf, conns, this`len, this`slen, this`flags, this`ipid
      ensures Valid()
      ensures var s := InState(old(conns[cur]), acked, old(slen), seg, old(Area()), calls, Mss());
        Did(s, old(conns[..]), Some(seg)) && call == s.call
    {
      if f.fin {
        call := FinInFinWait1(seg, acked, calls);
      } else {
        DataInFinWait1(seg, acked, calls);
        call := None;
      }
    }

    method FinInFinWait1(ghost seg: Segment, acked: bool, calls: seq<AppCall>) returns (call: Option<Callback>)
      requires Valid() && AtSwitch(seg, acked, calls) && conns[cur].state == FIN_WAIT_1 && seg.flags.fin
      modifies buf, conns, this`len, this`slen, this`flags, this`ipid
      ensures Valid()
      ensures var s := InState(old(conns[cur]), acked, old(slen), seg, old(Area()), calls, Mss());
        Did(s, old(conns[..]), Some(seg)) && call == s.call
    {
      ghost var before := conns[..];
      ghost var s := InState(conns[cur], acked, slen, seg, Area(), calls, Mss());
      DiscardData();
      ToClosing(acked);
      assert s == CallOnly(conns[cur], flags, slen, ShownData(), Area(), calls, PureAck);
      call := CallAndEmit(ACK, calls, s, before);
    }

    /** The FIN that crossed ours is taken. */
    method ToClosing(acked: bool)
      requires Valid()
      modifies conns, this`flags
      ensures Valid() && flags == {CLOSE}
      ensures var c := old(conns[cur]); conns[..] == old(conns[..])[cur :=
        Received(if acked then Enter(c, TIME_WAIT).(timer := 0, len := 0) else Enter(c, CLOSING), 1)]
    {
      conns[cur] := if acked then Enter(conns[cur], TIME_WAIT).(timer := 0, len := 0) else Enter(conns[cur], CLOSING);
      AddRcvNxt(1);
      flags := {CLOSE};
    }

    method DataInFinWait1(ghost seg: Segment, acked: bool, ghost calls: seq<AppCall>)
      requires Valid() && AtSwitch(seg, acked, calls) && conns[cur].state == FIN_WAIT_1 && !seg.flags.fin
      modifies buf, conns, this`len, this`flags, this`ipid
      ensures Valid()
      ensures var s := InState(old(conns[cur]), acked, old(slen), seg, old(Area()), calls, Mss());
        Did(s, old(conns[..]), Some(seg)) && s.call == None
    {
      DiscardData();
      if acked {
        conns[cur] := Enter(conns[cur], FIN_WAIT_2).(len := 0);
        Drop();
      } else {
        AckData(seg);
      }
    }

    /** Data that is discarded is acknowledged all the same. */
    method AckData(ghost seg: Segment)
      requires Valid()
      modifies buf, this`len, this`flags, this`ipid
      ensures Valid()
      ensures Did(Step(conns[cur], slen, if old(len) > 0 then PureAck else Silent, None), conns[..], Some(seg))
    {
      if len > 0 {
        TcpSendNodata(ACK);
      } else {
        Drop();
      }
    }

    method InFinWait2(ghost seg: Segment, f: Ctl, acked: bool, calls: seq<AppCall>) returns (call: Option<Callback>)
      requires Valid() && AtSwitch(seg, acked, calls) && conns[cur].state == FIN_WAIT_2 && f == seg.flags
      modifies buf, conns, this`len, this`slen, this`flags, this`ipid
      ensures Valid()
      ensures var s := InState(old(conns[cur]), acked, old(slen), seg, old(Area()), calls, Mss());
        Did(s, old(conns[..]), Some(seg)) && call == s.call
    {
      if f.fin {
        call := FinInFinWait2(seg, acked, calls);
      } else {
        DataInFinWait2(seg, acked, calls);
        call := None;
      }
    }

    method FinInFinWait2(ghost seg: Segment, ghost acked: bool, calls: seq<AppCall>) returns (call: Option<Callback>)
      requires Valid() && AtSwitch(seg, acked, calls) && conns[cur].state == FIN_WAIT_2 && seg.flags.fin
      modifies buf, conns, this`len, this`slen, this`flags, this`ipid
      ensures Valid()
      ensures var s := InState(old(conns[cur]), acked, old(slen), seg, old(Area()), calls, Mss());
        Did(s, old(conns[..]), Some(seg)) && call == s.call
    {
      ghost var before := conns[..];
      ghost var s := InState(conns[cur], acked, slen, seg, Area(), calls, Mss());
      DiscardData();
      ToTimeWait();
      assert s == CallOnly(conns[cur], flags, slen, ShownData(), Area(), calls, PureAck);
      call := CallAndEmit(ACK, calls, s, before);
    }

    /** The FIN that follows the acknowledgement of ours is taken. */
    method ToTimeWait()
      requires Valid()
      modifies conns, this`flags
      ensures Valid() && flags == {CLOSE}
      ensures conns[..] == old(conns[..])[cur := Received(Enter(old(conns[cur]), TIME_WAIT).(timer := 0), 1)]
    {
      conns[cur] := Enter(conns[cur], TIME_WAIT).(timer := 0);
      AddRcvNxt(1);
      flags := {CLOSE};
    }

    method DataInFinWait2(ghost seg: Segment, ghost acked: bool, ghost calls: seq<AppCall>)
      requires Valid() && AtSwitch(seg, acked, calls) && conns[cur].state == FIN_WAIT_2 && !seg.flags.fin
      modifies buf, conns, this`len, this`flags, this`ipid
      ensures Valid()
      ensures var s := InState(old(conns[cur]), acked, old(slen), seg, old(Area()), calls, Mss());
        Did(s, old(conns[..]), Some(seg)) && s.call == None
    {
      DiscardData();
      AckData(seg);
    }

    /** CLOSED, CLOSING, TIME_WAIT and LAST_ACK. */
    method InLateState(ghost seg: Segment, acked: bool, calls: seq<AppCall>) returns (call: Option<Callback>)
      requires Valid() && AtSwitch(seg, acked, calls) && conns[cur].state in {CLOSED, CLOSING, TIME_WAIT, LAST_ACK}
      modifies buf, conns, this`len, this`slen, this`flags, this`ipid
      ensures Valid()
      ensures var s := InState(old(conns[cur]), acked, old(slen), seg, old(Area()), calls, Mss());
        Did(s, old(conns[..]), Some(seg)) && call == s.call
    {
      call := None;
      if conns[cur].state == TIME_WAIT {
        TcpSendNodata(ACK);
      } else if conns[cur].state == LAST_ACK && acked {
        call := TakeLastAck(seg, calls);
      } else {
        if conns[cur].state == CLOSING && acked {
          conns[cur] := Enter(conns[cur], TIME_WAIT).(timer := 0);
        }
        Drop();
      }
    }

    /** Our FIN is acknowledged in LAST_ACK: the connection is over, and the application is told. */
    method TakeLastAck(ghost seg: Segment, calls: seq<AppCall>) returns (call: Option<Callback>)
      requires Valid() && AtSwitch(seg, true, calls) && conns[cur].state == LAST_ACK
      modifies buf, conns, this`len, this`slen, this`flags
      ensures Valid()
      ensures var s := InState(old(conns[cur]), true, old(slen), seg, old(Area()), calls, Mss());
        Did(s, old(conns[..]), Some(seg)) && call == s.call
    {
      ghost var before := conns[..];
      ghost var s := InState(conns[cur], true, slen, seg, Area(), calls, Mss());
      conns[cur] := Enter(conns[cur], CLOSED);
      flags := {CLOSE};
      call := CallAndDrop(calls, s, before);
    }

    // ----- an incoming segment -----

    method Switch(ghost seg: Segment, f: Ctl, acked: bool, calls: seq<AppCall>) returns (call: Option<Callback>)
      requires Valid() && AtSwitch(seg, acked, calls) && f == seg.flags
      requires conns[cur].state == SYN_SENT && acked && f == SYN_ACK ==> OptionsEnd(seg.doff, Area())
      modifies buf, conns, this`len, this`slen, this`flags, this`ipid, this`appdata
      ensures Valid()
      ensures var s := InState(old(conns[cur]), acked, old(slen), seg, old(Area()), calls, Mss());
        Did(s, old(conns[..]), Some(seg)) && call == s.call
    {
      match conns[cur].state {
        case SYN_RCVD => call := InSynRcvd(seg, acked, calls);
        case SYN_SENT => call := InSynSent(seg, f, acked, calls);
        case ESTABLISHED => call := InEstablished(seg, f, acked, calls);
        case FIN_WAIT_1 => call := InFinWait1(seg, f, acked, calls);
        case FIN_WAIT_2 => call := InFinWait2(seg, f, acked, calls);
        case _ => call := InLateState(seg, acked, calls);
      }
    }

    /** Whether the sequence number of the segment matters and is not the expected one. */
    method IsOutOfOrder(ghost seg: Segment, f: Ctl) returns (b: bool)
      requires Valid() && seg == SegOf(buf[..]) && f == seg.flags && len == DataLen(seg)
      ensures b == OutOfOrder(conns[cur], seg)
    {
      b := false;
      if !(conns[cur].state == SYN_SENT && f == SYN_ACK) {
        var seqno := ReadQuad(38);
        b := (len > 0 || f.syn || f.fin) && seqno != conns[cur].rcvNxt;
      }
    }

    /** A RST closes the connection at once. */
    method TakeReset(ghost seg: Segment, calls: seq<AppCall>) returns (call: Option<Callback>)
      requires Valid() && seg == SegOf(buf[..]) && seg.flags.rst && flags == {} && appdata == 54 && Fits(calls, Area())
      modifies buf, conns, this`len, this`slen, this`flags
      ensures Valid()
      ensures var s := Arrive(old(conns[cur]), old(slen), seg, old(Area()), calls, Mss());
        Did(s, old(conns[..]), Some(seg)) && call == s.call
    {
      ghost var before := conns[..];
      ghost var s := Arrive(conns[cur], slen, seg, Area(), calls, Mss());
      conns[cur] := Enter(conns[cur], CLOSED);
      flags := {ABORT};
      call := CallAndDrop(calls, s, before);
    }

    /** `uip_len = uip_len - c - UIP_IPH_LEN`. */
    method Trim(ghost seg: Segment)
      requires buf.Length >= HDR && seg == SegOf(buf[..]) && len == seg.len
      modifies this`len
      ensures len == DataLen(seg)
    {
      var n := len - buf[46] / 16 * 4 - 20;
      len := if n < 0 then n + 0x1_0000 else n;
    }

    /** Label `found`. */
    method Found(ghost seg: Segment, calls: seq<AppCall>) returns (call: Option<Callback>)
      requires Valid() && seg == SegOf(buf[..]) && buf[23] == PROTO_TCP && len == seg.len && appdata == 54 &&
        Fits(calls, Area())
      requires Returns(conns[cur], seg, Area())
      modifies buf, conns, this`len, this`slen, this`flags, this`ipid, this`appdata
      ensures Valid()
      ensures var s := Arrive(old(conns[cur]), old(slen), seg, old(Area()), calls, Mss());
        Did(s, old(conns[..]), Some(seg)) && call == s.call
    {
      flags := {};
      var f := ReadCtl();
      if f.rst {
        call := TakeReset(seg, calls);
      } else {
        call := TakeUnlessLate(seg, f, calls);
      }
    }

    /** What follows the test for a RST. */
    method TakeUnlessLate(ghost seg: Segment, f: Ctl, calls: seq<AppCall>) returns (call: Option<Callback>)
      requires Valid() && seg == SegOf(buf[..]) && buf[23] == PROTO_TCP && len == seg.len && appdata == 54 &&
        Fits(calls, Area())
      requires flags == {} && f == seg.flags && !f.rst && Returns(conns[cur], seg, Area())
      modifies buf, conns, this`len, this`slen, this`flags, this`ipid, this`appdata
      ensures Valid()
      ensures var s := Arrive(old(conns[cur]), old(slen), seg, old(Area()), calls, Mss());
        Did(s, old(conns[..]), Some(seg)) && call == s.call
    {
      Trim(seg);
      var late := IsOutOfOrder(seg, f);
      if late {
        TcpSendNodata(ACK);
        return None;
      }
      call := AckAndSwitch(seg, f, calls);
    }

    /** The acknowledgement code and the switch. */
    method AckAndSwitch(ghost seg: Segment, f: Ctl, calls: seq<AppCall>) returns (call: Option<Callback>)
      requires Valid() && AtSwitch(seg, false, calls) && f == seg.flags && !f.rst && !OutOfOrder(conns[cur], seg)
      requires Returns(conns[cur], seg, Area())
      modifies buf, conns, this`len, this`slen, this`flags, this`ipid, this`appdata
      ensures Valid()
      ensures var s := Arrive(old(conns[cur]), old(slen), seg, old(Area()), calls, Mss());
        Did(s, old(conns[..]), Some(seg)) && call == s.call
    {
      ghost var before := conns[..];
      ghost var c := conns[cur];
      HandleAck(f, seg);
      ghost var middle := conns[..];
      var acked := ACKDATA in flags;
      ghost var s := InState(conns[cur], acked, slen, seg, Area(), calls, Mss());
      call := Switch(seg, f, acked, calls);
      assert middle[cur := s.c] == before[cur := s.c];
    }

    // ----- demultiplexing -----

    /** The whole table state as module Tcp sees it. */
    ghost function State(): Engine
      reads this, conns, ports
    {
      Engine(conns[..], ports[..], iss, slen, lastport)
    }

    /** The first active connection the segment belongs to. */
    method Demux(ghost seg: Segment) returns (i: nat)
      requires Valid() && seg == SegOf(buf[..])
      ensures i == FindConn(conns[..], seg)
    {
      var dport := Read16(36);
      var sport := Read16(34);
      var src := Addr((buf[26] as int) * 0x100 + buf[27], (buf[28] as int) * 0x100 + buf[29]);
      i := 0;
      while i < conns.Length
        invariant 0 <= i <= conns.Length
        invariant forall k :: 0 <= k < i ==> !Matches(conns[k], seg)
      {
        if !Is(conns[i], CLOSED) && dport == conns[i].lport && sport == conns[i].rport && src == conns[i].ripaddr {
          assert Matches(conns[..][i], seg);
          return;
        }
        i := i + 1;
      }
    }

    method IsListening(port: u16) returns (b: bool)
      ensures b <==> port in ports[..]
    {
      b := false;
      for c := 0 to ports.Length
        invariant port !in ports[..c]
      {
        if port == ports[c] {
          return true;
        }
      }
      assert ports[..ports.Length] == ports[..];
    }

    /** The slot for a new connection, or -1. */
    method PickSlot() returns (k: int)
      requires Valid()
      ensures k == Slot(conns[..], conns.Length)
    {
      k := -1;
      for c := 0 to conns.Length
        invariant k == Slot(conns[..], c)
        invariant k >= 0 ==> k < c && !Is(conns[k], CLOSED)
      {
        if Is(conns[c], CLOSED) {
          k := c;
          assert Slot(conns[..], c + 1) == c;
          ClosedSlotStays(conns[..], c, c + 1, conns.Length);
          return;
        }
        if Is(conns[c], TIME_WAIT) {
          if k < 0 || conns[c].timer > conns[k].timer {
            k := c;
          }
        }
      }
    }

    /** Label `found_listen`. */
    method FoundListen(ghost seg: Segment)
      requires Valid() && seg == SegOf(buf[..]) && flags == {}
      requires Slot(conns[..], conns.Length) >= 0 ==> OptionsEnd(seg.doff, Area())
      modifies buf, conns, this`len, this`flags, this`ipid, this`cur
      ensures Valid() && flags == {}
      ensures var k := Slot(old(conns[..]), conns.Length);
        if k < 0 then conns[..] == old(conns[..]) && Shipped(None)
        else
          var c := Accept(old(conns[..])[k], seg, iss, old(Area()), Mss());
          conns[..] == old(conns[..])[k := c] && Shipped(Some(Compose(c, host, Mss(), SYN_ACK, true, [])))
    {
      var k := PickSlot();
      if k < 0 {
        Drop();
        return;
      }
      cur := k;
      AcceptSyn(seg);
      TcpSendSyn(SYN_ACK);
    }

    /** Fills the current slot for the SYN in the buffer. */
    method AcceptSyn(ghost seg: Segment)
      requires Valid() && seg == SegOf(buf[..]) && OptionsEnd(seg.doff, Area())
      modifies conns
      ensures Valid()
      ensures conns[..] == old(conns[..])[cur := Accept(old(conns[cur]), seg, iss, Area(), Mss())]
    {
      var lport := Read16(36);
      var rport := Read16(34);
      var src := Addr((buf[26] as int) * 0x100 + buf[27], (buf[28] as int) * 0x100 + buf[29]);
      var seqno := ReadQuad(38);
      var c := conns[cur];
      conns[cur] := Conn(src, lport, rport, seqno, iss, 1, c.mss, c.initialmss, 0, 4, RTO, SYN_RCVD, false, RTO, 0);
      AddRcvNxt(1);
      ParseMss();
    }

    /** Label `tcp_input`. */
    method TcpInput(calls: seq<AppCall>) returns (call: Option<Callback>)
      requires Valid() && IpLen(buf[..]) == len && ReadsInside(buf[..], buf.Length) && buf[23] == PROTO_TCP
      requires appdata == 54 && Fits(calls, Area()) && flags == {}
      requires SumHolds(buf[..]) ==> InputReturns(State(), SegOf(buf[..]), Area())
      modifies buf, conns, this`len, this`slen, this`flags, this`ipid, this`appdata, this`cur
      ensures Valid() && flags == {}
      ensures if !SumHolds(old(buf[..])) then State() == old(State()) && Shipped(None) && call == None
        else
          var r := Tcp.Input(old(State()), SegOf(old(buf[..])), old(Area()), calls, host, Mss());
          State() == r.e && Shipped(r.out) && call == r.call
    {
      call := None;
      ReadsInsideExactly(buf[..], buf.Length);
      var sum := TcpChksum();
      if sum != 0xffff {
        Drop();
        return;
      }
      call := Dispatch(SegOf(buf[..]), calls);
    }

    method Dispatch(ghost seg: Segment, calls: seq<AppCall>) returns (call: Option<Callback>)
      requires Valid() && seg == SegOf(buf[..]) && buf[23] == PROTO_TCP && len == seg.len && appdata == 54 &&
        Fits(calls, Area()) && flags == {}
      requires InputReturns(State(), seg, Area())
      modifies buf, conns, this`len, this`slen, this`flags, this`ipid, this`appdata, this`cur
      ensures Valid() && flags == {}
      ensures var r := Tcp.Input(old(State()), seg, old(Area()), calls, host, Mss());
        State() == r.e && Shipped(r.out) && call == r.call
    {
      call := None;
      var i := Demux(seg);
      if i < conns.Length {
        cur := i;
        call := Found(seg, calls);
      } else {
        Unclaimed(seg, calls);
      }
    }

    /** No connection matches the segment. */
    method Unclaimed(ghost seg: Segment, ghost calls: seq<AppCall>)
      requires Valid() && seg == SegOf(buf[..]) && buf[23] == PROTO_TCP && Fits(calls, Area()) && flags == {}
      requires FindConn(conns[..], seg) == conns.Length && InputReturns(State(), seg, Area())
      modifies buf, conns, this`len, this`flags, this`ipid, this`cur
      ensures Valid() && flags == {}
      ensures var r := Tcp.Input(old(State()), seg, old(Area()), calls, host, Mss());
        State() == r.e && Shipped(r.out) && r.call == None
    {
      var f := ReadCtl();
      var dport := Read16(36);
      var listening := IsListening(dport);
      if f != SYN || !listening {
        Reset(seg);
      } else {
        FoundListen(seg);
      }
    }

    // ----- timer and poll -----

    /** The retransmission switch. */
    method Rexmit(calls: seq<AppCall>, ghost before: seq<Conn>) returns (call: Option<Callback>)
      requires Valid() && Fits(calls, Area()) && appdata == 54 && flags == {} && len == 0 && slen == 0
      requires |before| == conns.Length && conns[..] == before[cur := conns[cur]]
      modifies buf, conns, this`len, this`slen, this`flags, this`ipid, this`appdata
      ensures Valid()
      ensures var s := Tcp.Rexmit(old(conns[cur]), old(Area()), calls); Did(s, before, None) && call == s.call
    {
      call := None;
      match conns[cur].state {
        case SYN_RCVD => TcpSendSyn(SYN_ACK);
        case SYN_SENT => TcpSendSyn(SYN);
        case ESTABLISHED =>
          flags := {REXMIT};
          call := CallAndRexmit(calls, before);
        case FIN_WAIT_1 => TcpSendNodata(FIN_ACK);
        case CLOSING => TcpSendNodata(FIN_ACK);
        case LAST_ACK => TcpSendNodata(FIN_ACK);
        case _ => Drop();
      }
    }

    /** UIP_APPCALL() followed by `apprexmit`. */
    method CallAndRexmit(calls: seq<AppCall>, ghost before: seq<Conn>) returns (call: Option<Callback>)
      requires Valid() && Fits(calls, Area()) && appdata == 54 && flags == {REXMIT} && slen == 0
      requires conns[cur].state == ESTABLISHED
      requires |before| == conns.Length && conns[..] == before[cur := conns[cur]]
      modifies buf, conns, this`len, this`slen, this`flags, this`ipid, this`appdata
      ensures Valid()
      ensures var s := Tcp.Rexmit(old(conns[cur]), old(Area()), calls); Did(s, before, None) && call == s.call
    {
      ghost var s := Tcp.Rexmit(conns[cur], Area(), calls);
      call := AppCallback(calls);
      assert conns[..] == before[cur := s.c];
      AppRexmit();
    }

    /** The retransmission timer has run out for good. */
    method GiveUp(calls: seq<AppCall>, ghost before: seq<Conn>) returns (call: Option<Callback>)
      requires Valid() && Fits(calls, Area()) && appdata == 54 && slen == 0
      requires |before| == conns.Length && conns[..] == before[cur := conns[cur]]
      modifies buf, conns, this`len, this`slen, this`flags, this`ipid
      ensures Valid()
      ensures var s := CallOnly(Enter(old(conns[cur]), CLOSED), {TIMEDOUT}, 0, [], old(Area()), calls,
                                Emit(RST_ACK, false, []));
        Did(s, before, None) && call == s.call
    {
      conns[cur] := Enter(conns[cur], CLOSED);
      flags := {TIMEDOUT};
      assert ShownData() == [];
      call := CallAndEmit(RST_ACK, calls,
                          CallOnly(conns[cur], flags, slen, [], Area(), calls, Emit(RST_ACK, false, [])), before);
    }

    /** The timer of a connection with outstanding data. */
    method Outstanding(calls: seq<AppCall>) returns (call: Option<Callback>)
      requires Valid() && Fits(calls, Area()) && appdata == 54 && flags == {} && len == 0 && slen == 0
      requires var c := conns[cur]; c.len > 0 && !Is(c, TIME_WAIT) && !Is(c, FIN_WAIT_2) && !Is(c, CLOSED)
      modifies buf, conns, this`len, this`slen, this`flags, this`ipid, this`appdata
      ensures Valid()
      ensures var s := Timer(old(conns[cur]), old(Area()), calls); Did(s, old(conns[..]), None) && call == s.call
    {
      if conns[cur].timer == 0 {
        conns[cur] := conns[cur].(timer := 0xff);
        call := TimerDue(calls, old(conns[cur]), old(conns[..]));
      } else {
        conns[cur] := conns[cur].(timer := conns[cur].timer - 1);
        Drop();
        call := None;
      }
    }

    /** The timer of connection c has run out, and wrapped. */
    method TimerDue(calls: seq<AppCall>, ghost c: Conn, ghost before: seq<Conn>) returns (call: Option<Callback>)
      requires Valid() && Fits(calls, Area()) && appdata == 54 && flags == {} && len == 0 && slen == 0
      requires |before| == conns.Length && conns[..] == before[cur := conns[cur]] && conns[cur] == c.(timer := 0xff)
      requires c.timer == 0 && c.len > 0 && !Is(c, TIME_WAIT) && !Is(c, FIN_WAIT_2) && !Is(c, CLOSED)
      modifies buf, conns, this`len, this`slen, this`flags, this`ipid, this`appdata
      ensures Valid()
      ensures Room(c, old(Area())) && var s := Timer(c, old(Area()), calls); Did(s, before, None) && call == s.call
    {
      TimerRunsOut(c, Area(), calls);
      if GivesUp(conns[cur]) {
        call := GiveUp(calls, before);
      } else {
        call := Retry(calls, before);
      }
    }

    /** The timer is reloaded by the number of retransmissions so far. */
    method Retry(calls: seq<AppCall>, ghost before: seq<Conn>) returns (call: Option<Callback>)
      requires Valid() && Fits(calls, Area()) && appdata == 54 && flags == {} && len == 0 && slen == 0
      requires |before| == conns.Length && conns[..] == before[cur := conns[cur]]
      modifies buf, conns, this`len, this`slen, this`flags, this`ipid, this`appdata
      ensures Valid()
      ensures var c := old(conns[cur]);
        var s := Tcp.Rexmit(c.(timer := Backoff(c.nrtx), nrtx := (c.nrtx + 1) % 0x100), old(Area()), calls);
        Did(s, before, None) && call == s.call
    {
      conns[cur] := conns[cur].(timer := Backoff(conns[cur].nrtx), nrtx := (conns[cur].nrtx + 1) % 0x100);
      call := Rexmit(calls, before);
    }

    /** uip_process(UIP_TIMER) for connection i. */
    method Periodic(i: nat, calls: seq<AppCall>) returns (call: Option<Callback>)
      requires Valid() && i < conns.Length && Fits(calls, Area()) && flags == {}
      modifies buf, conns, this`len, this`slen, this`flags, this`ipid, this`appdata, this`cur, this`iss
      ensures Valid() && cur == i && iss == Plus(old(iss), 1)
      ensures var s := Timer(old(conns[i]), old(Area()), calls); Did(s, old(conns[..]), None) && call == s.call
    {
      cur, appdata := i, 54;
      iss := Increment(iss);
      len, slen := 0, 0;
      call := None;
      if Is(conns[cur], TIME_WAIT) || Is(conns[cur], FIN_WAIT_2) {
        WaitOut(calls);
      } else if !Is(conns[cur], CLOSED) && conns[cur].len > 0 {
        call := Outstanding(calls);
      } else {
        call := PollIdle(calls);
      }
    }

    /** A connection that only waits to be removed. */
    method WaitOut(ghost calls: seq<AppCall>)
      requires Valid() && Fits(calls, Area()) && slen == 0
      requires Is(conns[cur], TIME_WAIT) || Is(conns[cur], FIN_WAIT_2)
      modifies conns, this`len, this`flags
      ensures Valid() && Timer(old(conns[cur]), old(Area()), calls).call == None
      ensures Did(Timer(old(conns[cur]), old(Area()), calls), old(conns[..]), None)
    {
      conns[cur] := conns[cur].(timer := (conns[cur].timer + 1) % 0x100);
      if conns[cur].timer == TIME_WAIT_TIMEOUT {
        conns[cur] := Enter(conns[cur], CLOSED);
      }
      Drop();
    }

    /** A connection without outstanding data is polled if it is established. */
    method PollIdle(calls: seq<AppCall>) returns (call: Option<Callback>)
      requires Valid() && Fits(calls, Area()) && appdata == 54 && flags == {} && len == 0 && slen == 0
      requires var c := conns[cur]; !Is(c, TIME_WAIT) && !Is(c, FIN_WAIT_2) && (Is(c, CLOSED) || c.len == 0)
      modifies buf, conns, this`len, this`slen, this`flags, this`ipid, this`appdata
      ensures Valid()
      ensures var s := Timer(old(conns[cur]), old(Area()), calls); Did(s, old(conns[..]), None) && call == s.call
    {
      if !Is(conns[cur], CLOSED) && conns[cur].state == ESTABLISHED {
        flags := {POLL};
        call := CallAndSend(calls, Timer(conns[cur], Area(), calls), conns[..]);
      } else {
        Drop();
        call := None;
      }
    }

    /** uip_process(UIP_POLL_REQUEST) for connection i. */
    method PollRequest(i: nat, calls: seq<AppCall>) returns (call: Option<Callback>)
      requires Valid() && i < conns.Length && Fits(calls, Area()) && flags == {}
      modifies buf, conns, this`len, this`slen, this`flags, this`ipid, this`appdata, this`cur
      ensures Valid() && cur == i
      ensures var s := Poll(old(conns[i]), old(slen), old(Area()), calls);
        Did(s, old(conns[..]), None) && call == s.call
    {
      cur, appdata := i, 54;
      call := None;
      if conns[cur].state == ESTABLISHED && conns[cur].len == 0 {
        flags := {POLL};
        call := CallAndSend(calls, Poll(conns[cur], slen, Area(), calls), conns[..]);
      } else {
        Drop();
      }
    }

    // ----- the application interface -----

    /** Whether a connection that is not CLOSED has local port p. */
    method PortInUse(p: u16) returns (b: bool)
      ensures b <==> PortUsed(conns[..], p)
    {
      b := false;
      for c := 0 to conns.Length
        invariant forall k :: 0 <= k < c ==> Is(conns[k], CLOSED) || conns[k].lport != p
      {
        if !Is(conns[c], CLOSED) && conns[c].lport == p {
          assert conns[..][c] in conns[..];
          return true;
        }
      }
    }

    /** Label `again`: the next local port in turn that no connection uses. */
    method PickPort()
      requires Valid()
      modifies this`lastport
      ensures Valid() && lastport == FreePort(conns[..], old(lastport), conns.Length)
      ensures !PortUsed(conns[..], lastport)
    {
      FreePortIsFree(conns[..], lastport);
      ghost var left: int := conns.Length;
      while true
        invariant 0 <= left && lastport < 32000
        invariant FreePort(conns[..], lastport, left) == FreePort(conns[..], old(lastport), conns.Length)
        decreases left
      {
        var p: u16 := (lastport + 1) % 0x1_0000;
        if p >= 32000 {
          p := 4096;
        }
        assert p == NextPort(lastport);
        ghost var unused := FreePort(conns[..], lastport, left);
        lastport := p;
        var used := PortInUse(lastport);
        if !used {
          return;
        }
        assert left == 0 ==> unused == p;
        left := left - 1;
      }
    }

    /** uip_connect: the slot of the new connection, or -1. */
    method Connect(ripaddr: Addr, rport: u16) returns (k: int)
      requires Valid()
      modifies conns, this`lastport
      ensures Valid() && State() == ConnectTo(old(State()), ripaddr, rport, Mss())
      ensures k == Slot(old(conns[..]), conns.Length)
      ensures k >= 0 ==> !PortUsed(old(conns[..]), conns[k].lport)
    {
      PickPort();
      k := PickSlot();
      if k >= 0 {
        conns[k] := Open(conns[k], ripaddr, rport, lastport, iss, Mss());
      }
    }

    /** The loops of uip_listen and uip_unlisten. */
    method Replace(p: u16, q: u16)
      modifies ports
      ensures ports[..] == Update(old(ports[..]), p, q)
    {
      ghost var before := ports[..];
      for c := 0 to ports.Length
        invariant ports[..] == before
        invariant Update(before, p, q) == before[..c] + Update(before[c..], p, q)
      {
        assert before[c..][0] == before[c] && before[c..][1..] == before[c + 1..];
        if ports[c] == p {
          ports[c] := q;
          assert before[..c] + ([q] + before[c + 1..]) == before[c := q];
          return;
        }
        assert before[..c] + ([before[c]] + Update(before[c + 1..], p, q)) == before[..c + 1] +
          Update(before[c + 1..], p, q);
      }
      assert before[..ports.Length] == before && before[ports.Length..] == [];
    }

    method Listen(port: u16)
      requires Valid()
      modifies ports
      ensures Valid() && State() == old(State()).(ports := Update(old(ports[..]), 0, port))
    {
      Replace(0, port);
    }

    method Unlisten(port: u16)
      requires Valid()
      modifies ports
      ensures Valid() && State() == old(State()).(ports := Update(old(ports[..]), port, 0))
    {
      Replace(port, 0);
    }

    // ----- IP input -----

    method Admit() returns (ok: bool)
      requires buf.Length >= HDR
      modifies this`len
      ensures ok == Admits(buf[..], old(len), host) && (ok ==> len == IpLen(buf[..]))
    {
      ok := false;
      if buf[14] != 0x45 {
        return;
      }
      var n := Read16(16);
      if n > len {
        return;
      }
      len := n;
      if buf[20] % 64 != 0 || buf[21] != 0 {
        return;
      }
      if host != Addr(0, 0) {
        var hi := Read16(30);
        var lo := Read16(32);
        if Addr(hi, lo) != host {
          return;
        }
      }
      var sum := IpChksum();
      ok := sum == 0xffff;
    }

    /** An echo request becomes its reply. */
    method EchoReply()
      requires buf.Length >= HDR && buf[34] == ICMP_ECHO
      modifies buf, this`flags
      ensures Echoed(old(buf[..]), buf[..], host) && flags == {}
    {
      buf[34] := 0;
      BumpAt(buf, 36, 0x0800, bigEndian);
      buf[30], buf[31], buf[32], buf[33] := buf[26], buf[27], buf[28], buf[29];
      PutAddr(26, host);
      flags := {};
    }

    /** uip_process(UIP_DATA): what arrived is dropped, answered as a ping, or given to TCP. */
    method Input(calls: seq<AppCall>) returns (call: Option<Callback>)
      requires Valid() && Fits(calls, Area()) && flags == {}
      requires Admits(buf[..], len, host) && buf[23] == PROTO_TCP ==> ReadsInside(buf[..], buf.Length)
      requires Admits(buf[..], len, host) && buf[23] == PROTO_TCP && SumHolds(buf[..]) ==>
        InputReturns(State(), SegOf(buf[..]), Area())
      modifies buf, conns, this`len, this`slen, this`flags, this`ipid, this`appdata, this`cur
      ensures Valid() && flags == {}
      ensures var b := old(buf[..]);
        if Admits(b, old(len), host) && b[23] == PROTO_TCP && SumHolds(b) then
          var r := Tcp.Input(old(State()), SegOf(b), old(Area()), calls, host, Mss());
          State() == r.e && Shipped(r.out) && call == r.call
        else
          State() == old(State()) && call == None &&
          if Admits(b, old(len), host) && b[23] == PROTO_ICMP && b[34] == ICMP_ECHO then
            Echoed(b, buf[..], host) && len == IpLen(b)
          else len == 0
    {
      appdata := 54;
      call := None;
      var ok := Admit();
      if !ok {
        Drop();
      } else if buf[23] == PROTO_TCP {
        call := TcpInput(calls);
      } else if buf[23] != PROTO_ICMP || buf[34] != ICMP_ECHO {
        Drop();
      } else {
        EchoReply();
      }
    }

    // ----- start -----

    /** uip_init on zeroed memory. */
    constructor (bufsize: nat, connections: nat, listenports: nat, host: Addr, bigEndian: bool)
      requires 96 <= bufsize <= 0xff00 && 0 < connections < 0x100
      ensures Valid() && flags == {} && this.bufsize == bufsize && this.host == host && this.bigEndian == bigEndian
      ensures fresh(buf) && fresh(conns) && fresh(ports)
      ensures State() == Init(connections, listenports, iss)
    {
      this.bufsize, this.host, this.bigEndian := bufsize, host, bigEndian;
      len, slen, flags, cur, appdata, ipid, lastport := 0, 0, {}, 0, 54, 0, 1024;
      iss := Quad(0, 0, 0, 0);
      buf := new byte[bufsize + 2](_ => 0);
      conns := new Conn[connections](_ => Conn(Addr(0, 0), 0, 0, Quad(0, 0, 0, 0), Quad(0, 0, 0, 0), 0, 0, 0, 0, 0, 0,
                                               CLOSED, false, 0, 0));
      ports := new u16[listenports](_ => 0);
      new;
      assert conns[..] == Init(connections, listenports, iss).conns;
      assert ports[..] == Init(connections, listenports, iss).ports;
    }
  }
}
