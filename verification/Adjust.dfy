/** Stored checksums that are adjusted instead of recomputed: the echo reply of uip.c and the TTL
    of uip-fw.c (section 3 of RFC 1624). */
module Adjust {
  import opened Bytes
  import opened Checksum
  import opened Tcp
  import opened Packet

  /** `if(w >= 0xffff - d) w += d + 1; else w += d;` on u16_t. */
  function Bump(w: u16, d: u16): (r: u16)
    requires d < 0xffff
    ensures r < 0xffff && (r == w + d || r == w + d - 0xffff)
  {
    if w >= 0xffff - d then w + d + 1 - 0x1_0000 else w + d
  }

  /** HTONS and a u16_t load: network order seen through the host's byte order. */
  function Order(bigEndian: bool, w: u16): u16 {
    if bigEndian then w else Swap(w)
  }

  lemma SwapSwap(w: u16)
    ensures Swap(Swap(w)) == w
  {
  }

  lemma SwapComplement(w: u16)
    ensures Swap(0xffff - w) == 0xffff - Swap(w)
  {
    var q, r := w / 0x100, w % 0x100;
    assert (0xffff - w) / 0x100 == 0xff - q && (0xffff - w) % 0x100 == 0xff - r;
  }

  /** The adjustment commutes with exchanging the bytes, so the code is right on both kinds of host. */
  lemma BumpEitherOrder(w: u16, d: u16)
    requires d < 0xffff
    ensures Swap(d) < 0xffff && Swap(Bump(w, d)) == Bump(Swap(w), Swap(d))
  {
    var r := Bump(w, d);
    NotAllOnes(d);
    NotAllOnes(r);
    var w1, d1, r1, w2, d2, r2 := w / 0x100, d / 0x100, r / 0x100, Swap(w), Swap(d), Swap(r);
    SameWord(w, d, r, w1, d1, r1, w2, d2, r2);
  }

  lemma SameWord(w: u16, d: u16, r: u16, w1: nat, d1: nat, r1: nat, w2: u16, d2: u16, r2: u16)
    requires d2 < 0xffff && r2 < 0xffff && (r == w + d || r == w + d - 0xffff)
    requires w2 == 0x100 * w - 0xffff * w1 && d2 == 0x100 * d - 0xffff * d1 && r2 == 0x100 * r - 0xffff * r1
    ensures r2 == Bump(w2, d2)
  {
    var b := Bump(w2, d2);
    var e, f := if r == w + d then 0 else 1, if b == w2 + d2 then 0 else 1;
    Close(r2, b, w1 + d1 - r1 - 0x100 * e + f);
  }

  lemma Close(x: nat, y: nat, k: int)
    requires x < 0xffff && y < 0xffff && x == y + 0xffff * k
    ensures x == y
  {
  }

  lemma NotAllOnes(w: u16)
    ensures w < 0xffff ==> Swap(w) < 0xffff
  {
    SwapSwap(w);
  }

  lemma BumpThrough(bigEndian: bool, w: u16, d: u16)
    requires d < 0xffff
    ensures Order(bigEndian, d) < 0xffff && Order(bigEndian, 0xffff - d) == 0xffff - Order(bigEndian, d)
    ensures Order(bigEndian, Bump(Order(bigEndian, w), Order(bigEndian, d))) == Bump(w, d)
  {
    BumpEitherOrder(w, d);
    SwapComplement(d);
    SwapSwap(Bump(w, d));
  }

  /** The adjustment as the code makes it, on a word loaded in the host's byte order. */
  method BumpAt(buf: array<byte>, i: nat, d: u16, bigEndian: bool)
    requires i + 2 <= buf.Length && d < 0xffff
    modifies buf
    ensures At16(buf[..], i) == Bump(old(At16(buf[..], i)), d)
    ensures forall j :: 0 <= j < buf.Length && j != i && j != i + 1 ==> buf[j] == old(buf[j])
  {
    BumpThrough(bigEndian, At16(buf[..], i), d);
    var w := BumpWord(Order(bigEndian, (buf[i] as int) * 0x100 + buf[i + 1]), Order(bigEndian, 0xffff - d),
                      Order(bigEndian, d));
    Put16(buf, i, Order(bigEndian, w));
  }

  method BumpWord(w: u16, limit: u16, step: u16) returns (r: u16)
    requires step < 0xffff && limit == 0xffff - step
    ensures r == Bump(w, step)
  {
    if w >= limit {
      r := (w + step + 1) % 0x1_0000;
    } else {
      r := (w + step) % 0x1_0000;
    }
  }

  // ----- the sum is unchanged -----

  /** The word at k is lower by d, and the checksum word at j has been adjusted by d. */
  predicate Adjusted(a: seq<byte>, a': seq<byte>, k: nat, j: nat, d: u16) {
    && d < 0xffff && k % 2 == 0 && j % 2 == 0 && k != j && k + 2 <= |a| == |a'| && j + 2 <= |a|
    && At16(a', k) == At16(a, k) - d && At16(a', j) == Bump(At16(a, j), d)
    && forall i :: 0 <= i < |a| && i != k && i != k + 1 && i != j && i != j + 1 ==> a'[i] == a[i]
  }

  /** The sum is unchanged modulo 65535. */
  lemma SumUnchanged(a: seq<byte>, a': seq<byte>, k: nat, j: nat, d: u16) returns (e: int)
    requires Adjusted(a, a', k, j, d)
    ensures WordSum(a') == WordSum(a) + 0xffff * e
  {
    EvenApart(k, j);
    var a1 := Patch(a, a', k, j);
    WordSumUpdate(a, a1, k);
    WordSumUpdate(a1, a', j);
    e := if At16(a', j) == At16(a, j) + d then 0 else -1;
  }

  lemma EvenApart(k: nat, j: nat)
    requires k % 2 == 0 && j % 2 == 0 && k != j
    ensures k + 2 <= j || j + 2 <= k
  {
  }

  /** Halfway from a to a': only the word at k has changed. */
  ghost function Patch(a: seq<byte>, a': seq<byte>, k: nat, j: nat): (a1: seq<byte>)
    requires |a| == |a'| && k + 2 <= |a| && j + 2 <= |a| && (k + 2 <= j || j + 2 <= k)
    requires forall i :: 0 <= i < |a| && i != k && i != k + 1 && i != j && i != j + 1 ==> a'[i] == a[i]
    ensures |a1| == |a| && a[..k] == a1[..k] && a[k + 2..] == a1[k + 2..]
    ensures a1[..j] == a'[..j] && a1[j + 2..] == a'[j + 2..]
    ensures At16(a1, k) == At16(a', k) && At16(a1, j) == At16(a, j)
  {
    a[k := a'[k]][k + 1 := a'[k + 1]]
  }

  lemma OnesOfMultiple(m: nat, n: nat, e: int)
    requires Ones(m) == 0xffff && n == m + 0xffff * e
    ensures Ones(n) == if n == 0 then 0 else 0xffff
  {
    var q := (m - 1) / 0xffff;
    assert m == 0xffff * (q + 1);
    if n > 0 {
      assert n == 0xffff + 0xffff * (q + e);
      assert q + e >= 0;
      OnesShift(0xffff, q + e);
    }
  }

  /** What verified before still verifies, except that a block of zeros sums to the other zero. */
  lemma StillVerifies(a: seq<byte>, a': seq<byte>, k: nat, j: nat, d: u16)
    requires Adjusted(a, a', k, j, d) && Fold(0, a) == 0xffff
    ensures Fold(0, a') == if forall i :: 0 <= i < |a'| ==> a'[i] == 0 then 0 else 0xffff
  {
    var e := SumUnchanged(a, a', k, j, d);
    FoldIsOnesSum(0, a);
    FoldIsOnesSum(0, a');
    OnesOfMultiple(WordSum(a), WordSum(a'), e);
    WordSumZero(a');
  }

  // ----- the echo reply -----

  const ICMP_ECHO: byte := 8

  /** The frame b with the echo request in it turned into the reply of `host`. */
  ghost predicate Echoed(b: seq<byte>, b': seq<byte>, host: Addr) {
    && HDR <= |b| == |b'| && b[34] == ICMP_ECHO && b'[34] == 0
    && At16(b', 36) == Bump(At16(b, 36), 0x0800)
    && AddrAt(b', 26) == host && AddrAt(b', 30) == AddrAt(b, 26)
    && forall i :: 0 <= i < |b| && !(26 <= i < 35 || 36 <= i < 38) ==> b'[i] == b[i]
  }

  /** The ICMP message of a frame. */
  ghost function Icmp(b: seq<byte>): seq<byte>
    requires HDR <= |b| && 24 <= IpLen(b) && 14 + IpLen(b) <= |b|
  {
    b[34..14 + IpLen(b)]
  }

  /** A valid request gets a valid reply, unless it carries nothing but zeros: code, identifier,
      sequence number and data. Then the reply's checksum field is 0 where it should be 0xffff. */
  lemma EchoVerifies(b: seq<byte>, b': seq<byte>, host: Addr)
    requires Echoed(b, b', host) && 24 <= IpLen(b) && 14 + IpLen(b) <= |b| && Fold(0, Icmp(b)) == 0xffff
    ensures Fold(0, Icmp(b')) == 0xffff <==> exists i :: (i == 35 || 38 <= i < 14 + IpLen(b)) && b[i] != 0
    ensures Fold(0, Icmp(b')) in {0, 0xffff}
  {
    var a, a' := Icmp(b), Icmp(b');
    assert forall i :: 0 <= i < |a| ==> a[i] == b[34 + i] && a'[i] == b'[34 + i];
    assert Adjusted(a, a', 0, 2, 0x0800);
    StillVerifies(a, a', 0, 2, 0x0800);
    if exists i :: (i == 35 || 38 <= i < 14 + IpLen(b)) && b[i] != 0 {
      var i :| (i == 35 || 38 <= i < 14 + IpLen(b)) && b[i] != 0;
      assert a'[i - 34] != 0;
    } else {
      ZerosLeaveZero(a);
    }
  }

  /** An otherwise empty request that verifies has the one checksum that is adjusted to 0. */
  lemma ZerosLeaveZero(a: seq<byte>)
    requires 4 <= |a| && a[0] == ICMP_ECHO && a[1] == 0 && (forall i :: 4 <= i < |a| ==> a[i] == 0) &&
      Fold(0, a) == 0xffff
    ensures Bump(At16(a, 2), 0x0800) == 0
  {
    FoldIsOnesSum(0, a);
    WordSumZero(a[4..]);
    assert a[2..][2..] == a[4..];
    assert WordSum(a) == 0x0800 + WordSum(a[2..]);
    assert WordSum(a[2..]) == At16(a, 2) + WordSum(a[4..]);
  }

  /** The IP header is not recomputed: it stays right because the addresses only change places,
      that is, when the request was sent to this host. A host that has no address yet also
      answers; then the header is right only if the sums of the two addresses agree. */
  lemma EchoHeaderVerifies(b: seq<byte>, b': seq<byte>, host: Addr)
    requires Echoed(b, b', host) && IpSum(b) == 0xffff
    ensures IpSum(b') == 0xffff <==> (host.hi + host.lo - AddrAt(b, 30).hi - AddrAt(b, 30).lo) % 0xffff == 0
  {
    var h, h' := b[14..34], b'[14..34];
    SwappedAddresses(h, h');
    FoldIsOnesSum(0, h);
    FoldIsOnesSum(0, h');
    ZeroModulo(WordSum(h));
    ZeroModulo(WordSum(h'));
    var d := host.hi + host.lo - AddrAt(b, 30).hi - AddrAt(b, 30).lo;
    assert WordSum(h') == WordSum(h) + d;
    SameResidue(WordSum(h), d);
  }

  lemma SameResidue(m: int, d: int)
    requires m % 0xffff == 0
    ensures (m + d) % 0xffff == 0 <==> d % 0xffff == 0
  {
    var q := m / 0xffff;
    assert m == 0xffff * q;
  }

  lemma ZeroModulo(n: nat)
    ensures NonZero(Ones(n)) == 0xffff <==> n % 0xffff == 0
  {
  }

  lemma SwappedAddresses(h: seq<byte>, h': seq<byte>)
    requires |h| == |h'| == 20 && h[..12] == h'[..12] && h'[16..20] == h[12..16]
    ensures WordSum(h') == WordSum(h) - At16(h, 16) - At16(h, 18) + At16(h', 12) + At16(h', 14)
  {
    var t, t' := h[12..], h'[12..];
    assert h == h[..12] + t && h' == h'[..12] + t';
    WordSumSplit(h[..12], t);
    WordSumSplit(h'[..12], t');
    FourWords(t);
    FourWords(t');
    assert h'[16] == h'[16..20][0] && h'[17] == h'[16..20][1] && h'[18] == h'[16..20][2] && h'[19] == h'[16..20][3];
  }

  lemma FourWords(t: seq<byte>)
    requires |t| == 8
    ensures WordSum(t) == At16(t, 0) + At16(t, 2) + At16(t, 4) + At16(t, 6)
  {
    assert t[2..][2..] == t[4..] && t[4..][2..] == t[6..];
    assert WordSum(t[6..][2..]) == 0;
    assert WordSum(t[6..]) == At16(t, 6);
    assert WordSum(t[4..]) == At16(t, 4) + WordSum(t[6..]);
    assert WordSum(t[2..]) == At16(t, 2) + WordSum(t[4..]);
  }

  /** The request that fails: a ping with identifier, sequence number and data all zero. */
  lemma ZeroPing(b: seq<byte>, b': seq<byte>, host: Addr)
    requires Echoed(b, b', host) && IpLen(b) == 28
    requires b[35] == 0 && At16(b, 36) == 0xf7ff && b[38] == 0 && b[39] == 0 && b[40] == 0 && b[41] == 0
    ensures Fold(0, Icmp(b)) == 0xffff && Fold(0, Icmp(b')) == 0
  {
    FourWords(Icmp(b));
    FourWords(Icmp(b'));
    FoldIsOnesSum(0, Icmp(b));
    FoldIsOnesSum(0, Icmp(b'));
  }

  // ----- the TTL -----

  /** One hop of a packet that may still be sent. */
  ghost predicate Hopped(b: seq<byte>, b': seq<byte>) {
    Decremented(b, b') && b[22] > 0
  }

  /** The TTL, the upper byte of the word at 22 of the frame, is lower by 1 on u8_t, and the checksum
      adjusted. */
  ghost predicate Decremented(b: seq<byte>, b': seq<byte>) {
    && HDR <= |b| == |b'| && b'[22] == (if b[22] == 0 then 0xff else b[22] - 1)
    && At16(b', 24) == Bump(At16(b, 24), 0x0100)
    && forall i :: 0 <= i < |b| && i != 22 && i != 24 && i != 25 ==> b'[i] == b[i]
  }

  /** The TTL counts down modulo 256. */
  lemma HopCountsDown(b: seq<byte>, b': seq<byte>)
    requires Decremented(b, b')
    ensures (b'[22] as int + 1) % 0x100 == b[22]
  {
  }

  /** A header that verified before the hop verifies after it: it is never all zeros. */
  lemma HopVerifies(b: seq<byte>, b': seq<byte>)
    requires Hopped(b, b') && b[14] != 0 && IpSum(b) == 0xffff
    ensures IpSum(b') == 0xffff && Fold(0, b'[14..34]) == 0xffff
  {
    var h, h' := b[14..34], b'[14..34];
    assert forall i :: 0 <= i < 20 ==> h[i] == b[14 + i] && h'[i] == b'[14 + i];
    FoldIsOnesSum(0, h);
    WordSumZero(h);
    assert Adjusted(h, h', 8, 10, 0x0100);
    StillVerifies(h, h', 8, 10, 0x0100);
  }
}
