/** uip-split.c: a maximum-sized segment is sent as two smaller ones, so that a receiver with
    delayed acknowledgements answers at once. */
module Split {
  import opened Bytes
  import opened Checksum
  import opened Tcp
  import opened Packet
  import Uip

  /** `memcpy(dst, dst + d, n)` within the buffer, byte by byte upwards; the ranges may overlap. */
  method CopyDown(buf: array<byte>, dst: nat, d: nat, n: nat)
    requires dst + d + n <= buf.Length
    modifies buf
    ensures buf[dst..dst + n] == old(buf[dst + d..dst + d + n])
    ensures forall j :: 0 <= j < buf.Length && !(dst <= j < dst + n) ==> buf[j] == old(buf[j])
  {
    ghost var before := buf[..];
    for i := 0 to n
      invariant forall j :: dst <= j < dst + i ==> buf[j] == before[j + d]
      invariant forall j :: 0 <= j < buf.Length && !(dst <= j < dst + i) ==> buf[j] == before[j]
    {
      buf[dst + i] := buf[dst + d + i];
    }
    assert buf[dst..dst + n] == before[dst + d..dst + d + n];
  }

  /** Only the length and the two checksums differ. */
  ghost predicate Resealed(b: seq<byte>, b': seq<byte>, n: u16) {
    && HDR <= |b| == |b'| && IpLen(b') == n
    && forall j :: 0 <= j < |b| && !(16 <= j < 18 || 24 <= j < 26 || 50 <= j < 52) ==> b'[j] == b[j]
  }

  /** Sets both lengths and recomputes both checksums. */
  method Reseal(s: Uip.Stack, n: u16)
    requires HDR <= s.buf.Length < 65550 && 40 <= n && 14 + n <= s.buf.Length
    modifies s.buf, s`len
    ensures s.len == n && Resealed(old(s.buf[..]), s.buf[..], n) && Summed(s.buf[..])
  {
    s.len := n;
    Put16(s.buf, 16, s.len);
    s.SealTcpHeader();
    ghost var b := s.buf[..];
    s.buf[24], s.buf[25] := 0, 0;
    s.SealIpHeader();
    TcpSumFrame(b, s.buf[..]);
  }

  /** The segment in the buffer when n bytes of it are to be sent. */
  ghost function Sized(b: seq<byte>, n: u16): Segment
    requires HDR <= |b| && 40 <= n && 14 + n <= |b|
  {
    SegOf(b).(len := n, body := b[54..14 + n])
  }

  /** The two pieces of a segment cut after n1 bytes of data. */
  ghost function Pieces(seg: Segment, n1: nat): seq<Segment>
    requires n1 <= |seg.body| && |seg.body| + 40 < 0x1_0000
  {
    [seg.(len := 40 + n1, body := seg.body[..n1]),
     seg.(seqno := Plus(seg.seqno, n1), len := 40 + |seg.body| - n1, body := seg.body[n1..])]
  }

  /** The pieces of a segment cut in the middle; the second gets the odd byte. */
  ghost function Halves(seg: Segment): seq<Segment> {
    if |seg.body| + 40 < 0x1_0000 then Pieces(seg, |seg.body| / 2) else []
  }

  /** The halves are as long as each other, or the second is longer by one byte. */
  lemma HalvesBalanced(seg: Segment)
    requires |seg.body| + 40 < 0x1_0000
    ensures var h := Halves(seg);
      && |h| == 2 && h[0].body + h[1].body == seg.body && |h[1].body| - |h[0].body| == |seg.body| % 2
      && h[0].len == 40 + |h[0].body| && h[1].len == 40 + |h[1].body|
      && h[0].seqno == seg.seqno && h[1].seqno == Plus(seg.seqno, |h[0].body|)
  {
  }

  /** The constant fields of an IP packet that carries TCP. */
  predicate Plain(b: seq<byte>) {
    HDR <= |b| && Constant(b) && b[22] == TTL
  }

  /** uip_split_output: the frames handed to the network, in order. A packet to be split has its data
      at uip_appdata; its length field and checksums are not looked at. */
  method SplitOutput(s: Uip.Stack) returns (sent: seq<seq<byte>>)
    requires s.Valid() && (s.buf[23] == PROTO_TCP && s.len == s.bufsize - 14 ==> s.appdata == 54)
    modifies s.buf, s`len
    ensures if old(s.buf[23] == PROTO_TCP && s.len == s.bufsize - 14) then
        && |sent| == 2 && Summed(sent[0]) && Summed(sent[1])
        && [SegOf(sent[0]), SegOf(sent[1])] == old(Halves(Sized(s.buf[..], s.len)))
        && (old(Plain(s.buf[..])) ==> Sealed(sent[0]) && Sealed(sent[1]))
      else sent == [old(s.buf[..])]
  {
    if s.buf[23] == PROTO_TCP && s.len == s.bufsize - 14 {
      var tcplen := s.len - 40;
      var len1 := tcplen / 2;
      var len2 := len1;
      if len1 + len2 < tcplen {
        len2 := len2 + 1;
      }
      HalvesAre(Sized(s.buf[..], s.len), len1);
      sent := SendBoth(s, len1, len2);
    } else {
      sent := [s.buf[..]];
    }
  }

  lemma HalvesAre(seg: Segment, n1: nat)
    requires |seg.body| + 40 < 0x1_0000 && n1 == |seg.body| / 2
    ensures Halves(seg) == Pieces(seg, n1)
  {
  }

  method SendBoth(s: Uip.Stack, len1: nat, len2: nat) returns (sent: seq<seq<byte>>)
    requires s.Valid() && s.appdata == 54 && 40 + len1 + len2 == s.len && 14 + s.len <= s.buf.Length
    modifies s.buf, s`len
    ensures |sent| == 2 && Summed(sent[0]) && Summed(sent[1])
    ensures [SegOf(sent[0]), SegOf(sent[1])] == old(Pieces(Sized(s.buf[..], s.len), len1))
    ensures old(Plain(s.buf[..])) ==> Plain(sent[0]) && Plain(sent[1])
  {
    ghost var b := s.buf[..];
    Reseal(s, len1 + 40);
    ghost var b0 := s.buf[..];
    sent := [s.buf[..]];
    Renumber(s, len1, len2);
    ghost var b1 := s.buf[..];
    Reseal(s, len2 + 40);
    sent := sent + [s.buf[..]];
    HeadIs(b, b0, len1, len2);
    TailIs(b, b0, b1, sent[1], len1, len2);
    StaysPlain(b, b0);
    StaysPlain(b0, b1);
    StaysPlain(b1, sent[1]);
  }

  /** None of the steps touches the constant fields. */
  lemma StaysPlain(b: seq<byte>, b': seq<byte>)
    requires HDR <= |b| == |b'|
    requires forall j :: 14 <= j < 24 && j != 16 && j != 17 ==> b'[j] == b[j]
    ensures Plain(b) ==> Plain(b')
  {
  }

  /** The segment of a frame whose length, sequence number and body have been replaced. */
  lemma SegOfPiece(b: seq<byte>, b': seq<byte>, n: u16, body: seq<byte>)
    requires HDR <= |b| == |b'| && 40 <= n && 14 + n <= |b| && IpLen(b') == n
    requires forall i :: (26 <= i < 38 || 42 <= i < 50 || 52 <= i < 54) ==> b'[i] == b[i]
    requires b'[54..14 + n] == body
    ensures SegOf(b') == SegOf(b).(seqno := At32(b', 38), len := n, body := body)
  {
  }

  lemma HeadIs(b: seq<byte>, b': seq<byte>, len1: nat, len2: nat)
    requires |b| < 65550 && 54 + len1 + len2 <= |b| && len1 + len2 + 40 < 0x1_0000 && Resealed(b, b', len1 + 40)
    ensures SegOf(b') == Pieces(Sized(b, 40 + len1 + len2), len1)[0]
  {
    var body := b[54..54 + len1];
    assert b'[54..54 + len1] == body;
    assert b[54..54 + len1 + len2][..len1] == body;
    assert At32(b', 38) == At32(b, 38);
    SegOfPiece(b, b', len1 + 40, body);
  }

  /** Data and number have been moved on. */
  ghost predicate Renumbered(b0: seq<byte>, b1: seq<byte>, len1: nat, len2: nat) {
    && HDR <= |b0| == |b1| && 54 + len1 + len2 <= |b0|
    && b1[54..54 + len2] == b0[54 + len1..54 + len1 + len2] && At32(b1, 38) == Plus(At32(b0, 38), len1)
    && forall j :: 0 <= j < |b0| && !(38 <= j < 42 || 54 <= j < 54 + len2) ==> b1[j] == b0[j]
  }

  /** From the whole segment b to the second piece: the first piece b0, the data and number moved on
      in b1, and lengths and checksums renewed in b2. */
  lemma TailIs(b: seq<byte>, b0: seq<byte>, b1: seq<byte>, b2: seq<byte>, len1: nat, len2: nat)
    requires |b| < 65550 && 54 + len1 + len2 <= |b| && len1 + len2 + 40 < 0x1_0000
    requires Resealed(b, b0, len1 + 40) && Renumbered(b0, b1, len1, len2) && Resealed(b1, b2, len2 + 40)
    ensures SegOf(b2) == Pieces(Sized(b, 40 + len1 + len2), len1)[1]
  {
    var body := b[54 + len1..54 + len1 + len2];
    assert b[54..54 + len1 + len2][len1..] == body;
    assert b0[54 + len1..54 + len1 + len2] == body;
    assert b2[54..54 + len2] == b1[54..54 + len2];
    assert At32(b2, 38) == At32(b1, 38) && At32(b0, 38) == At32(b, 38);
    SameHeader(b, b0, b1, b2, len1, len2);
    SegOfPiece(b, b2, len2 + 40, body);
  }

  lemma SameHeader(b: seq<byte>, b0: seq<byte>, b1: seq<byte>, b2: seq<byte>, len1: nat, len2: nat)
    requires |b| < 65550 && 54 + len1 + len2 <= |b| && len1 + len2 + 40 < 0x1_0000
    requires Resealed(b, b0, len1 + 40) && Renumbered(b0, b1, len1, len2) && Resealed(b1, b2, len2 + 40)
    ensures forall i :: (26 <= i < 38 || 42 <= i < 50 || 52 <= i < 54) ==> b2[i] == b[i]
  {
  }

  /** The data of the second piece and its sequence number. */
  method Renumber(s: Uip.Stack, len1: nat, len2: nat)
    requires s.Valid() && s.appdata == 54 && 54 + len1 + len2 <= s.buf.Length && len1 < 0x1_0000
    modifies s.buf
    ensures Renumbered(old(s.buf[..]), s.buf[..], len1, len2)
  {
    CopyDown(s.buf, s.appdata, len1, len2);
    ghost var data := s.buf[54..54 + len2];
    var seqno := s.ReadQuad(38);
    var acc := Add32(seqno, len1);
    s.Put32(38, acc);
    assert s.buf[54..54 + len2] == data;
  }

  // ----- what the pieces carry -----

  /** The numbered bytes of a segment. */
  ghost function Numbered(seqno: Quad, body: seq<byte>): set<(Quad, byte)> {
    set i | 0 <= i < |body| :: (Plus(seqno, i), body[i])
  }

  /** Numbering goes on across a cut. */
  lemma NumberedSplit(q: Quad, a: seq<byte>, b: seq<byte>)
    ensures Numbered(q, a + b) == Numbered(q, a) + Numbered(Plus(q, |a|), b)
  {
    var left, right, whole := Numbered(q, a), Numbered(Plus(q, |a|), b), Numbered(q, a + b);
    forall x | x in whole
      ensures x in left + right
    {
      var i :| 0 <= i < |a + b| && x == (Plus(q, i), (a + b)[i]);
      if i >= |a| {
        PlusPlus(q, |a|, i - |a|);
        assert x == (Plus(Plus(q, |a|), i - |a|), b[i - |a|]);
      }
    }
    forall x | x in right
      ensures x in whole
    {
      var i :| 0 <= i < |b| && x == (Plus(Plus(q, |a|), i), b[i]);
      PlusPlus(q, |a|, i);
      assert x == (Plus(q, |a| + i), (a + b)[|a| + i]);
    }
    forall x | x in left
      ensures x in whole
    {
      var i :| 0 <= i < |a| && x == (Plus(q, i), a[i]);
      assert x == (Plus(q, i), (a + b)[i]);
    }
  }

  lemma NumberedApart(q: Quad, a: seq<byte>, b: seq<byte>)
    requires |a| + |b| < 0x1_0000_0000
    ensures Numbered(q, a) !! Numbered(Plus(q, |a|), b)
  {
    forall x | x in Numbered(q, a)
      ensures x !in Numbered(Plus(q, |a|), b)
    {
      var k :| 0 <= k < |a| && x == (Plus(q, k), a[k]);
      forall i: nat | i < |b|
        ensures Plus(Plus(q, |a|), i) != Plus(q, k)
      {
        NumbersApart(q, k, |a|, i);
      }
    }
  }

  lemma NumbersApart(q: Quad, k: nat, n: nat, i: nat)
    requires k < n && n + i < 0x1_0000_0000
    ensures Plus(Plus(q, n), i) != Plus(q, k)
  {
    PlusPlus(q, n, i);
    if Plus(q, n + i) == Plus(q, k) {
      PlusInjective(q, n + i, k);
    }
  }

  /** The pieces carry exactly the numbered bytes of the whole, each once, and between them as
      much data; everything else in their headers is as it was. */
  lemma SplitCarriesAll(seg: Segment, n1: nat)
    requires n1 <= |seg.body| && |seg.body| + 40 < 0x1_0000
    ensures var p := Pieces(seg, n1);
      && Numbered(p[0].seqno, p[0].body) + Numbered(p[1].seqno, p[1].body) == Numbered(seg.seqno, seg.body)
      && Numbered(p[0].seqno, p[0].body) !! Numbered(p[1].seqno, p[1].body)
      && p[0].body + p[1].body == seg.body
  {
    var a, b := seg.body[..n1], seg.body[n1..];
    assert a + b == seg.body;
    NumberedSplit(seg.seqno, a, b);
    NumberedApart(seg.seqno, a, b);
  }
}
