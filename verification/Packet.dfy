/** The TCP/IP packet as it lies in uip_buf, after a 14-byte link-level header. */
module Packet {
  import opened Bytes
  import opened Checksum
  import opened Tcp

  const HDR: nat := 54           // first byte after the link, IP and TCP headers
  const PROTO_ICMP: byte := 1
  const PROTO_TCP: byte := 6
  const TTL: byte := 64          // UIP_TTL

  function At32(b: seq<byte>, i: nat): Quad
    requires i + 3 < |b|
  {
    Quad(b[i], b[i + 1], b[i + 2], b[i + 3])
  }

  function AddrAt(b: seq<byte>, i: nat): Addr
    requires i + 3 < |b|
  {
    Addr(At16(b, i), At16(b, i + 2))
  }

  /** The low six bits of the flags byte. */
  function ByteOf(f: Ctl): byte {
    (if f.fin then 1 else 0) + (if f.syn then 2 else 0) + (if f.rst then 4 else 0) +
    (if f.psh then 8 else 0) + (if f.ack then 16 else 0) + (if f.urg then 32 else 0)
  }

  /** The control bits of a flags byte; its two high bits are ignored. */
  ghost function CtlOf(x: byte): (f: Ctl)
    ensures ByteOf(f) == x % 64
  {
    CtlBitsInverse(x);
    var f :| ByteOf(f) == x % 64;
    f
  }

  function CtlBits(x: byte): Ctl {
    var x1 := x / 2;
    var x2 := x1 / 2;
    var x3 := x2 / 2;
    var x4 := x3 / 2;
    var x5 := x4 / 2;
    Ctl(x % 2 == 1, x1 % 2 == 1, x2 % 2 == 1, x3 % 2 == 1, x4 % 2 == 1, x5 % 2 == 1)
  }

  lemma CtlBitsInverse(x: byte)
    ensures ByteOf(CtlBits(x)) == x % 64
  {
    var x1, x2, x3, x4, x5, x6 := x / 2, x / 4, x / 8, x / 16, x / 32, x / 64;
    assert x2 == x1 / 2 && x3 == x2 / 2 && x4 == x3 / 2 && x5 == x4 / 2 && x6 == x5 / 2;
    assert x % 64 == x - 64 * x6;
    assert x1 == 2 * x2 + x1 % 2 && x2 == 2 * x3 + x2 % 2 && x3 == 2 * x4 + x3 % 2 && x4 == 2 * x5 + x4 % 2 &&
      x5 == 2 * x6 + x5 % 2;
  }

  lemma CtlOfByteOf(f: Ctl)
    ensures CtlOf(ByteOf(f)) == f
  {
    ByteOfInjective(CtlOf(ByteOf(f)), f);
  }

  lemma ByteOfInjective(f: Ctl, g: Ctl)
    requires ByteOf(f) == ByteOf(g)
    ensures f == g
  {
  }

  // ----- fields -----

  function IpLen(b: seq<byte>): u16
    requires HDR <= |b|
  {
    At16(b, 16)
  }

  /** The segment in the buffer. A packet too short for the headers has no body. */
  ghost function SegOf(b: seq<byte>): Segment
    requires HDR <= |b|
  {
    Segment(AddrAt(b, 26), AddrAt(b, 30), At16(b, 34), At16(b, 36), At32(b, 38), At32(b, 42),
            b[46] / 16, CtlOf(b[47]), At16(b, 48), At16(b, 52), IpLen(b), BodyOf(b))
  }

  function BodyOf(b: seq<byte>): seq<byte>
    requires HDR <= |b|
  {
    if 40 <= IpLen(b) && 14 + IpLen(b) <= |b| then b[54..14 + IpLen(b)] else []
  }

  // ----- checksums -----

  function NonZero(sum: u16): u16 {
    if sum == 0 then 0xffff else sum
  }

  /** uip_ipchksum, in host order. */
  function IpSum(b: seq<byte>): u16
    requires HDR <= |b|
  {
    NonZero(Fold(0, b[14..34]))
  }

  /** upper_layer_chksum for TCP, in host order: pseudo-header, TCP header and data. */
  function TcpSum(b: seq<byte>): u16
    requires HDR <= |b| && 20 <= IpLen(b) && 14 + IpLen(b) <= |b|
  {
    NonZero(Fold(Fold(IpLen(b) - 20 + PROTO_TCP, b[26..34]), b[34..14 + IpLen(b)]))
  }

  /** `upper_layer_len`: the length in the IP header less 20, on u16_t. */
  function UpperLen(b: seq<byte>): u16
    requires HDR <= |b|
  {
    if IpLen(b) < 20 then IpLen(b) - 20 + 0x1_0000 else IpLen(b) - 20
  }

  /** Everything that upper_layer_chksum reads lies in the first n bytes. */
  predicate ReadsInside(b: seq<byte>, n: nat)
    requires HDR <= |b|
  {
    34 + UpperLen(b) <= n
  }

  /** The exact condition on the header, for a buffer of any size up to 65549 bytes. */
  lemma ReadsInsideExactly(b: seq<byte>, n: nat)
    requires HDR <= |b| && n < 65550
    ensures ReadsInside(b, n) <==> 20 <= IpLen(b) && 14 + IpLen(b) <= n
  {
  }

  /** The TCP checksum is right. */
  predicate SumHolds(b: seq<byte>)
    requires HDR <= |b|
  {
    20 <= IpLen(b) && 14 + IpLen(b) <= |b| && TcpSum(b) == 0xffff
  }

  /** The tests of the IP input code, on a frame of which the driver reported n bytes. */
  predicate Admits(b: seq<byte>, n: u16, host: Addr) {
    && HDR <= |b| && b[14] == 0x45 && IpLen(b) <= n && b[20] % 64 == 0 && b[21] == 0
    && (host == Addr(0, 0) || AddrAt(b, 30) == host)
    && IpSum(b) == 0xffff
  }

  /** A frame for `host` with 19 as IP length, and no checksum yet. */
  lemma ShortFrame(host: Addr, size: nat) returns (b: seq<byte>)
    requires HDR <= size
    ensures |b| == size && IpLen(b) == 19 && AddrAt(b, 30) == host
    ensures b[14] == 0x45 && b[20] == 0 && b[21] == 0 && b[23] == PROTO_TCP && b[24] == 0 && b[25] == 0
  {
    var h := [0x45, 0, 0, 19, 0, 0, 0, 0, 64, PROTO_TCP, 0, 0, 0, 0, 0, 0,
              host.hi / 0x100, host.hi % 0x100, host.lo / 0x100, host.lo % 0x100];
    b := seq(14, _ => 0) + h + seq(size - 34, _ => 0);
    assert b[14..34] == h;
    forall i | 14 <= i < 34
      ensures b[i] == h[i - 14]
    {
      assert b[i] == b[14..34][i - 14];
    }
  }

  /** A frame for `host` with 19 as IP length that passes the tests: its TCP checksum would be
      computed over more than 65,000 bytes, far beyond the buffer. */
  lemma OutsideFrame(host: Addr, size: nat) returns (b: seq<byte>)
    requires HDR <= size < 0xff00
    ensures |b| == size && IpLen(b) == 19 && b[23] == PROTO_TCP && Admits(b, size, host) && !ReadsInside(b, size)
  {
    var b0 := ShortFrame(host, size);
    var x := 0xffff - IpSum(b0);
    b := b0[24 := x / 0x100][25 := x % 0x100];
    assert At16(b, 24) == x;
    SealIp(b0, b);
  }

  /** A packet that a receiver's checks accept. */
  predicate Sealed(b: seq<byte>) {
    Summed(b) && Constant(b) && b[22] == TTL
  }

  /** Both checksums of the packet hold. */
  predicate Summed(b: seq<byte>) {
    HDR <= |b| && 40 <= IpLen(b) && 14 + IpLen(b) <= |b| && IpSum(b) == 0xffff && TcpSum(b) == 0xffff
  }

  /** Storing the complement of a sum computed with a zero checksum field makes the sum 0xffff. */
  lemma SealSum(start: u16, pre: seq<byte>, a: seq<byte>, a': seq<byte>, k: nat)
    requires |pre| % 2 == 0 && k % 2 == 0 && k + 2 <= |a| == |a'|
    requires forall i :: 0 <= i < |a| && i != k && i != k + 1 ==> a[i] == a'[i]
    requires a[k] == 0 && a[k + 1] == 0
    requires At16(a', k) == 0xffff - NonZero(Fold(Fold(start, pre), a))
    ensures NonZero(Fold(Fold(start, pre), a')) == 0xffff
  {
    var n := FillFold(start, pre, a, a', k);
    SealOnes(n);
  }

  /** Both folds before and after the zero word is filled, by way of the plain sum n. */
  lemma FillFold(start: u16, pre: seq<byte>, a: seq<byte>, a': seq<byte>, k: nat) returns (n: nat)
    requires |pre| % 2 == 0 && k % 2 == 0 && k + 2 <= |a| == |a'|
    requires forall i :: 0 <= i < |a| && i != k && i != k + 1 ==> a[i] == a'[i]
    requires a[k] == 0 && a[k + 1] == 0
    ensures Fold(Fold(start, pre), a) == Ones(n) && Fold(Fold(start, pre), a') == Ones(n + At16(a', k))
  {
    n := start + WordSum(pre) + WordSum(a);
    FillZeroWord(a, a', k);
    TwoFolds(start, pre, a);
    TwoFolds(start, pre, a');
  }

  lemma FillZeroWord(a: seq<byte>, a': seq<byte>, k: nat)
    requires k % 2 == 0 && k + 2 <= |a| == |a'|
    requires forall i :: 0 <= i < |a| && i != k && i != k + 1 ==> a[i] == a'[i]
    requires a[k] == 0 && a[k + 1] == 0
    ensures WordSum(a') == WordSum(a) + At16(a', k)
  {
    assert a[..k] == a'[..k] && a[k + 2..] == a'[k + 2..];
    WordSumUpdate(a, a', k);
  }

  lemma TwoFolds(start: u16, pre: seq<byte>, a: seq<byte>)
    requires |pre| % 2 == 0
    ensures Fold(Fold(start, pre), a) == Ones(start + WordSum(pre) + WordSum(a))
  {
    FoldIsOnesSum(start, pre);
    FoldIsOnesSum(Fold(start, pre), a);
    OnesAdd(start + WordSum(pre), WordSum(a));
  }

  lemma SealOnes(n: nat)
    ensures NonZero(Ones(n + 0xffff - NonZero(Ones(n)))) == 0xffff
  {
    if n > 0 {
      var q := (n - 1) / 0xffff;
      assert Ones(n) == n - 0xffff * q;
      OnesShift(0xffff, q);
    }
  }

  lemma SealIp(b: seq<byte>, b': seq<byte>)
    requires HDR <= |b| == |b'| && b[24] == 0 && b[25] == 0
    requires forall i :: 14 <= i < 34 && i != 24 && i != 25 ==> b[i] == b'[i]
    requires At16(b', 24) == 0xffff - IpSum(b)
    ensures IpSum(b') == 0xffff
  {
    var a, a' := b[14..34], b'[14..34];
    assert Fold(0, []) == 0;
    SealSum(0, [], a, a', 10);
  }

  lemma SealTcp(b: seq<byte>, b': seq<byte>)
    requires HDR <= |b| == |b'| && 40 <= IpLen(b) && 14 + IpLen(b) <= |b| && b[50] == 0 && b[51] == 0
    requires forall i :: (16 <= i < 18 || 26 <= i < |b|) && i != 50 && i != 51 ==> b[i] == b'[i]
    requires At16(b', 50) == 0xffff - TcpSum(b)
    ensures TcpSum(b') == 0xffff
  {
    var a, a' := b[34..14 + IpLen(b)], b'[34..14 + IpLen(b)];
    assert b[26..34] == b'[26..34];
    SealSum(IpLen(b) - 20 + PROTO_TCP, b[26..34], a, a', 16);
  }

  /** The TCP sum does not depend on the parts of the IP header outside the pseudo-header. */
  lemma TcpSumFrame(b: seq<byte>, b': seq<byte>)
    requires HDR <= |b| == |b'| && 40 <= IpLen(b) && 14 + IpLen(b) <= |b|
    requires forall i :: (16 <= i < 18 || 26 <= i < |b|) ==> b[i] == b'[i]
    ensures TcpSum(b') == TcpSum(b)
  {
    assert b[26..34] == b'[26..34] && b[34..14 + IpLen(b)] == b'[34..14 + IpLen(b)];
  }

  lemma SegOfFrame(b: seq<byte>, b': seq<byte>)
    requires HDR <= |b| == |b'|
    requires forall i :: (16 <= i < 18 || 26 <= i < 50 || 52 <= i < |b|) ==> b[i] == b'[i]
    ensures SegOf(b') == SegOf(b)
  {
    if 40 <= IpLen(b) && 14 + IpLen(b) <= |b| {
      assert b[54..14 + IpLen(b)] == b'[54..14 + IpLen(b)];
    }
  }

  /** The segment in the buffer once its length is set to len and its urgent pointer to 0. */
  ghost function Lengthened(b: seq<byte>, len: u16): Segment
    requires HDR <= |b| && 40 <= len && 14 + len <= |b|
  {
    SegOf(b).(urgp := 0, len := len, body := b[54..14 + len])
  }

  /** Only the length and the urgent pointer have changed. */
  lemma SegOfLengthened(b: seq<byte>, b': seq<byte>, len: u16)
    requires HDR <= |b| == |b'| && 40 <= len && 14 + len <= |b|
    requires forall i :: 23 <= i < 50 || 54 <= i < |b| ==> b[i] == b'[i]
    requires IpLen(b') == len && b'[52] == 0 && b'[53] == 0
    ensures SegOf(b') == Lengthened(b, len)
  {
    assert b[54..14 + len] == b'[54..14 + len];
  }

  /** A segment of connection c with the given tcpoffset byte, flags byte, length and body. */
  ghost function FromConn(c: Conn, host: Addr, tcpMss: u16, offset: byte, flags: byte, len: u16,
                          body: seq<byte>): Segment {
    Segment(host, c.ripaddr, c.lport, c.rport, c.sndNxt, c.rcvNxt, offset / 16, CtlOf(flags),
            if c.stopped then 0 else tcpMss, 0, len, body)
  }

  lemma ShownIsSlice(b: seq<byte>, from: nat, n: nat)
    requires 54 <= from && from + n <= |b|
    ensures Shown(b[54..], from - 54, n) == b[from..from + n]
  {
    assert b[54..][from - 54..from - 54 + n] == b[from..from + n];
  }

  /** With the same headers, only the body may differ. */
  lemma SegOfHeader(b: seq<byte>, b': seq<byte>)
    requires HDR <= |b| == |b'| && forall i :: 0 <= i < 54 ==> b[i] == b'[i]
    ensures SegOf(b').(body := SegOf(b).body) == SegOf(b)
  {
  }

  // ----- what the sums mean -----

  lemma NonZeroOnes(n: nat)
    ensures NonZero(Ones(n)) == 0xffff <==> n % 0xffff == 0
  {
    OnesCongruent(n, 0xffff);
  }

  /** The header checksum holds exactly if the header sums to 0 modulo 65535 (section 3.1 of RFC 791). */
  lemma IpSumHolds(b: seq<byte>)
    requires HDR <= |b|
    ensures IpSum(b) == 0xffff <==> WordSum(b[14..34]) % 0xffff == 0
  {
    FoldIsOnesSum(0, b[14..34]);
    NonZeroOnes(WordSum(b[14..34]));
  }

  /** The pseudo-header: the two addresses, a zero, protocol number 6 and the length of the TCP segment
      (section 3.1 of RFC 793). */
  function PseudoHeader(b: seq<byte>): seq<byte>
    requires HDR <= |b| && 20 <= IpLen(b)
  {
    b[26..34] + [0, 6, (IpLen(b) - 20) / 0x100, (IpLen(b) - 20) % 0x100]
  }

  /** The TCP checksum holds exactly if pseudo-header, header and data sum to 0 modulo 65535. */
  lemma TcpSumHolds(b: seq<byte>)
    requires HDR <= |b| && 20 <= IpLen(b) && 14 + IpLen(b) <= |b|
    ensures SumHolds(b) <==> WordSum(PseudoHeader(b) + b[34..14 + IpLen(b)]) % 0xffff == 0
  {
    var data, n := b[34..14 + IpLen(b)], IpLen(b) - 20;
    var tail: seq<byte> := [0, 6, n / 0x100, n % 0x100];
    assert tail == Two(6) + Two(n);
    WordPair(6);
    WordPair(n);
    WordSumSplit(Two(6), Two(n));
    WordSumSplit(b[26..34], tail);
    WordSumSplit(PseudoHeader(b), data);
    TwoFolds(n + PROTO_TCP, b[26..34], data);
    NonZeroOnes(6 + n + WordSum(b[26..34]) + WordSum(data));
  }

  lemma WordPair(w: u16)
    ensures WordSum(Two(w)) == w
  {
    assert Two(w)[2..] == [];
  }

  // ----- the layout of the headers -----

  function Two(w: u16): seq<byte> {
    [w / 0x100, w % 0x100]
  }

  /** The IP header of section 3.1 of RFC 791, field after field. */
  function IpHeader(seg: Segment, ipid: u16, ttl: byte, sum: u16): (h: seq<byte>)
    ensures |h| == 20
  {
    [0x45, 0, seg.len / 0x100, seg.len % 0x100, ipid / 0x100, ipid % 0x100, 0, 0, ttl, 6, sum / 0x100, sum % 0x100,
     seg.src.hi / 0x100, seg.src.hi % 0x100, seg.src.lo / 0x100, seg.src.lo % 0x100,
     seg.dst.hi / 0x100, seg.dst.hi % 0x100, seg.dst.lo / 0x100, seg.dst.lo % 0x100]
  }

  /** The TCP header of section 3.1 of RFC 793. */
  function TcpHeader(seg: Segment, sum: u16): (h: seq<byte>)
    ensures |h| == 20
  {
    [seg.sport / 0x100, seg.sport % 0x100, seg.dport / 0x100, seg.dport % 0x100,
     seg.seqno.b0, seg.seqno.b1, seg.seqno.b2, seg.seqno.b3, seg.ackno.b0, seg.ackno.b1, seg.ackno.b2, seg.ackno.b3,
     seg.doff * 16, ByteOf(seg.flags), seg.wnd / 0x100, seg.wnd % 0x100, sum / 0x100, sum % 0x100,
     seg.urgp / 0x100, seg.urgp % 0x100]
  }

  /** A frame with these headers is read back as the segment it was made of. */
  lemma FrameRead(link: seq<byte>, seg: Segment, ipid: u16, ttl: byte, ipSum: u16, tcpSum: u16, after: seq<byte>)
    requires |link| == 14 && seg.len == 40 + |seg.body|
    ensures var b := link + IpHeader(seg, ipid, ttl, ipSum) + TcpHeader(seg, tcpSum) + seg.body + after;
      && HDR <= |b| && SegOf(b) == seg && Constant(b)
      && At16(b, 18) == ipid && b[22] == ttl && At16(b, 24) == ipSum && At16(b, 50) == tcpSum
  {
    var h, t := IpHeader(seg, ipid, ttl, ipSum), TcpHeader(seg, tcpSum);
    var b := link + h + t + seg.body + after;
    assert b[14..34] == h && b[34..54] == t && b[54..54 + |seg.body|] == seg.body;
    IpFields(b, seg, ipid, ttl, ipSum);
    TcpFields(b, seg, tcpSum);
  }

  /** The fields of the IP header that are the same in every packet of TCP. */
  predicate Constant(b: seq<byte>)
    requires HDR <= |b|
  {
    b[14] == 0x45 && b[15] == 0 && b[20] == 0 && b[21] == 0 && b[23] == PROTO_TCP
  }

  lemma Elements(b: seq<byte>, i: nat, h: seq<byte>)
    requires i + 20 <= |b| && |h| == 20 && b[i..i + 20] == h
    ensures b[i + 0] == h[0] && b[i + 1] == h[1] && b[i + 2] == h[2] && b[i + 3] == h[3] && b[i + 4] == h[4]
    ensures b[i + 5] == h[5] && b[i + 6] == h[6] && b[i + 7] == h[7] && b[i + 8] == h[8] && b[i + 9] == h[9]
    ensures b[i + 10] == h[10] && b[i + 11] == h[11] && b[i + 12] == h[12] && b[i + 13] == h[13] && b[i + 14] == h[14]
    ensures b[i + 15] == h[15] && b[i + 16] == h[16] && b[i + 17] == h[17] && b[i + 18] == h[18] && b[i + 19] == h[19]
  {
  }

  lemma IpFields(b: seq<byte>, seg: Segment, ipid: u16, ttl: byte, sum: u16)
    requires HDR <= |b| && b[14..34] == IpHeader(seg, ipid, ttl, sum)
    ensures IpLen(b) == seg.len && At16(b, 18) == ipid && Constant(b) && b[22] == ttl && At16(b, 24) == sum
    ensures AddrAt(b, 26) == seg.src && AddrAt(b, 30) == seg.dst
  {
    Elements(b, 14, IpHeader(seg, ipid, ttl, sum));
  }

  lemma TcpFields(b: seq<byte>, seg: Segment, sum: u16)
    requires HDR <= |b| && b[34..54] == TcpHeader(seg, sum)
    ensures At16(b, 34) == seg.sport && At16(b, 36) == seg.dport && At32(b, 38) == seg.seqno && At32(b, 42) == seg.ackno
    ensures b[46] / 16 == seg.doff && CtlOf(b[47]) == seg.flags
    ensures At16(b, 48) == seg.wnd && At16(b, 50) == sum && At16(b, 52) == seg.urgp
  {
    Elements(b, 34, TcpHeader(seg, sum));
    CtlOfByteOf(seg.flags);
  }

  lemma Halved(b: seq<byte>, i: nat)
    requires i + 2 <= |b|
    ensures At16(b, i) / 0x100 == b[i] && At16(b, i) % 0x100 == b[i + 1]
  {
  }

  lemma Twenty(b: seq<byte>, i: nat)
    requires i + 20 <= |b|
    ensures b[i..i + 20] == [b[i], b[i + 1], b[i + 2], b[i + 3], b[i + 4], b[i + 5], b[i + 6], b[i + 7], b[i + 8],
                             b[i + 9],
                             b[i + 10], b[i + 11], b[i + 12], b[i + 13], b[i + 14], b[i + 15], b[i + 16], b[i + 17],
                             b[i + 18], b[i + 19]]
  {
  }

  /** And a packet that a stack sends has these headers, byte for byte, if its reserved bits are zero. */
  lemma HeadersLaidOut(b: seq<byte>)
    requires Sealed(b) && b[46] % 16 == 0 && b[47] < 64
    ensures b[14..34] == IpHeader(SegOf(b), At16(b, 18), 64, At16(b, 24))
    ensures b[34..54] == TcpHeader(SegOf(b), At16(b, 50))
  {
    IpLaidOut(b);
    TcpLaidOut(b);
  }

  lemma IpLaidOut(b: seq<byte>)
    requires HDR <= |b| && Constant(b) && b[22] == TTL
    ensures b[14..34] == IpHeader(SegOf(b), At16(b, 18), 64, At16(b, 24))
  {
    Halved(b, 16);
    Halved(b, 18);
    Halved(b, 24);
    Halved(b, 26);
    Halved(b, 28);
    Halved(b, 30);
    Halved(b, 32);
    Twenty(b, 14);
  }

  lemma TcpLaidOut(b: seq<byte>)
    requires HDR <= |b| && b[46] % 16 == 0 && b[47] < 64
    ensures b[34..54] == TcpHeader(SegOf(b), At16(b, 50))
  {
    Halved(b, 34);
    Halved(b, 36);
    Halved(b, 48);
    Halved(b, 50);
    Halved(b, 52);
    BitsBack(b[46], b[47]);
    var seg := SegOf(b);
    SameTcpHeader(seg, At16(b, 50), b);
    Twenty(b, 34);
  }

  lemma BitsBack(x: byte, y: byte)
    requires x % 16 == 0 && y < 64
    ensures x / 16 * 16 == x && ByteOf(CtlOf(y)) == y
  {
  }

  lemma SameTcpHeader(seg: Segment, sum: u16, b: seq<byte>)
    requires HDR <= |b| && b[34] == seg.sport / 0x100 && b[35] == seg.sport % 0x100
    requires b[36] == seg.dport / 0x100 && b[37] == seg.dport % 0x100 && At32(b, 38) == seg.seqno &&
      At32(b, 42) == seg.ackno
    requires b[46] == seg.doff * 16 && b[47] == ByteOf(seg.flags) && b[48] == seg.wnd / 0x100 &&
      b[49] == seg.wnd % 0x100
    requires b[50] == sum / 0x100 && b[51] == sum % 0x100 && b[52] == seg.urgp / 0x100 && b[53] == seg.urgp % 0x100
    ensures TcpHeader(seg, sum) == [b[34], b[35], b[36], b[37], b[38], b[39], b[40], b[41], b[42], b[43], b[44], b[45],
                                    b[46], b[47], b[48], b[49], b[50], b[51], b[52], b[53]]
  {
  }

  /** The flags bytes of the segments that the engine sends. */
  lemma FlagBytes()
    ensures ByteOf(SYN) == 0x02 && ByteOf(SYN_ACK) == 0x12 && ByteOf(ACK) == 0x10 && ByteOf(ACK_PSH) == 0x18
    ensures ByteOf(FIN_ACK) == 0x11 && ByteOf(RST_ACK) == 0x14
    ensures forall f: Ctl :: CtlOf(0x20 + ByteOf(f.(urg := false))) == f.(urg := true)
  {
    forall f: Ctl
      ensures CtlOf(0x20 + ByteOf(f.(urg := false))) == f.(urg := true)
    {
      CtlOfByteOf(f.(urg := true));
    }
  }

  /** Whatever a stack sends, the one it is addressed to admits. */
  lemma SealedIsAdmitted(b: seq<byte>, n: u16, host: Addr)
    requires Sealed(b) && IpLen(b) <= n && (AddrAt(b, 30) == host || host == Addr(0, 0))
    ensures Admits(b, n, host) && SumHolds(b) && ReadsInside(b, |b|)
  {
  }

  /** Which packets are let in: version 4 with a header of five words, no longer than was received, whole
      and not a fragment, for this host or any host while it has no address, with a right header checksum. */
  lemma AdmitsExactly(b: seq<byte>, n: u16, host: Addr)
    requires HDR <= |b|
    ensures Admits(b, n, host) <==>
      && b[14] / 16 == 4 && b[14] % 16 == 5 && At16(b, 16) <= n
      && At16(b, 20) % 0x4000 == 0
      && ((host.hi == 0 && host.lo == 0) || (At16(b, 30) == host.hi && At16(b, 32) == host.lo))
      && WordSum(b[14..34]) % 0xffff == 0
  {
    IpSumHolds(b);
    FragmentField(b[20], b[21]);
  }

  lemma FragmentField(x: byte, y: byte)
    ensures ((x as int) * 0x100 + y) % 0x4000 == 0 <==> x % 64 == 0 && y == 0
  {
    assert (x as int) * 0x100 + y == 0x4000 * (x / 64) + (0x100 * (x % 64) + y);
  }

  /** Sequence numbers lie in network order. */
  lemma NetworkOrder(b: seq<byte>, i: nat)
    requires i + 4 <= |b|
    ensures Value(At32(b, i)) == At16(b, i) * 0x1_0000 + At16(b, i + 2)
  {
  }
}
