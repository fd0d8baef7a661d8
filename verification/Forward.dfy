/** uip-fw.c: forwarding a packet one hop, and the time-exceeded message when its hops are used up. */
module Forward {
  import opened Bytes
  import opened Checksum
  import opened Tcp
  import opened Packet
  import opened Adjust
  import Uip

  const BROADCAST := Addr(0xffff, 0xffff)
  const ICMP_TE: byte := 11

  /** The ICMP part of the time-exceeded message (RFC 792): 28 bytes of the packet it is about. */
  predicate Quotes(b: seq<byte>, m: seq<byte>) {
    && 70 <= |b| == |m|
    && m[34] == ICMP_TE && m[35] == 0 && m[42..70] == b[14..42] && Fold(0, m[34..70]) == 0xffff
  }

  /** The message m that answers packet b: from this host to the sender of b, with valid checksums. */
  predicate TimeExceeded(b: seq<byte>, m: seq<byte>, host: Addr) {
    && Quotes(b, m)
    && m[14] == 0x45 && m[15] == 0 && IpLen(m) == 56 && m[20] == 0 && m[21] == 0 && m[22] == 64 && m[23] == PROTO_ICMP
    && AddrAt(m, 26) == host && AddrAt(m, 30) == AddrAt(b, 26)
    && IpSum(m) == 0xffff
  }

  /** What the sender of an expired packet reads in the message: protocol 1, type 11, code 0, the IP header
      of its packet and the eight bytes behind it, and checksums that hold. */
  lemma TimeExceededReads(b: seq<byte>, m: seq<byte>, host: Addr)
    requires TimeExceeded(b, m, host)
    ensures m[23] == 1 && m[34] == 11 && m[35] == 0 && m[42..62] == b[14..34] && m[62..70] == b[34..42]
    ensures WordSum(m[14..34]) % 0xffff == 0 && WordSum(m[34..70]) % 0xffff == 0
  {
    IpSumHolds(m);
    FoldIsOnesSum(0, m[34..70]);
    NonZeroOnes(WordSum(m[34..70]));
    assert m[42..62] == m[42..70][..20] && b[14..34] == b[14..42][..20];
    assert m[62..70] == m[42..70][20..] && b[34..42] == b[14..42][20..];
  }

  /** A block with a zero checksum word in its second place, completed, sums to all ones. */
  lemma SealBlock(a: seq<byte>, a': seq<byte>)
    requires 4 <= |a| == |a'| && a[0] != 0 && a[2] == 0 && a[3] == 0
    requires forall i :: 0 <= i < |a| && i != 2 && i != 3 ==> a[i] == a'[i]
    requires At16(a', 2) == 0xffff - Fold(0, a)
    ensures Fold(0, a') == 0xffff
  {
    assert Fold(0, []) == 0;
    FoldIsOnesSum(0, a);
    FoldIsOnesSum(0, a');
    WordSumZero(a);
    WordSumZero(a');
    SealSum(0, [], a, a', 2);
  }

  /** The loop that quotes the packet. */
  method CopyQuotation(s: Uip.Stack)
    requires s.Valid()
    modifies s.buf
    ensures s.buf[42..70] == old(s.buf[14..42])
    ensures forall j :: 0 <= j < s.buf.Length && !(42 <= j < 70) ==> s.buf[j] == old(s.buf[j])
  {
    ghost var b := s.buf[..];
    for i := 0 to 28
      invariant forall j :: 42 <= j < 42 + i ==> s.buf[j] == b[j - 28]
      invariant forall j :: 0 <= j < s.buf.Length && !(42 <= j < 42 + i) ==> s.buf[j] == b[j]
    {
      s.buf[42 + i] := s.buf[14 + i];
    }
    assert s.buf[42..70] == b[14..42];
  }

  /** Type, quotation and checksum of the message. */
  method Quote(s: Uip.Stack)
    requires s.Valid()
    modifies s.buf
    ensures Quotes(old(s.buf[..]), s.buf[..])
    ensures forall j :: 0 <= j < 34 ==> s.buf[j] == old(s.buf[j])
  {
    CopyQuotation(s);
    ghost var q := s.buf[42..70];
    s.buf[34], s.buf[35] := ICMP_TE, 0;
    s.buf[36], s.buf[37] := 0, 0;
    ghost var a := s.buf[34..70];
    var sum := Chksum(0, s.buf, 34, 36);
    Put16(s.buf, 36, 0xffff - sum);
    SealBlock(a, s.buf[34..70]);
    assert s.buf[42..70] == q;
  }

  /** The IP header of the message. */
  method Address(s: Uip.Stack)
    requires s.Valid()
    modifies s.buf, s`len
    ensures s.len == 56
    ensures forall j :: 34 <= j < s.buf.Length ==> s.buf[j] == old(s.buf[j])
    ensures var m := s.buf[..];
      && m[14] == 0x45 && m[15] == 0 && IpLen(m) == 56 && m[20] == 0 && m[21] == 0 && m[22] == 64 && m[23] == PROTO_ICMP
      && AddrAt(m, 26) == s.host && AddrAt(m, 30) == old(AddrAt(s.buf[..], 26)) && IpSum(m) == 0xffff
  {
    TurnBack(s);
    s.len := 56;
    WriteHeader(s);
    ghost var m := s.buf[..];
    s.SealIpHeader();
    assert IpLen(s.buf[..]) == IpLen(m) && AddrAt(s.buf[..], 26) == AddrAt(m, 26) &&
      AddrAt(s.buf[..], 30) == AddrAt(m, 30);
  }

  method WriteHeader(s: Uip.Stack)
    requires s.Valid() && s.len == 56
    modifies s.buf
    ensures var m := s.buf[..];
      && m[14] == 0x45 && m[15] == 0 && IpLen(m) == 56 && m[20] == 0 && m[21] == 0 && m[22] == 64 && m[23] == PROTO_ICMP
      && m[24] == 0 && m[25] == 0 && AddrAt(m, 26) == old(AddrAt(s.buf[..], 26)) &&
        AddrAt(m, 30) == old(AddrAt(s.buf[..], 30))
    ensures forall j :: 34 <= j < s.buf.Length ==> s.buf[j] == old(s.buf[j])
  {
    s.buf[16], s.buf[17] := 0, s.len;
    s.buf[14], s.buf[15] := 0x45, 0;
    s.buf[20], s.buf[21] := 0, 0;
    s.buf[22], s.buf[23] := 64, PROTO_ICMP;
    s.buf[24], s.buf[25] := 0, 0;
  }

  /** The message goes to the sender of the packet, from this host. */
  method TurnBack(s: Uip.Stack)
    requires s.Valid()
    modifies s.buf
    ensures AddrAt(s.buf[..], 26) == s.host && AddrAt(s.buf[..], 30) == old(AddrAt(s.buf[..], 26))
    ensures forall j :: 0 <= j < s.buf.Length && !(26 <= j < 34) ==> s.buf[j] == old(s.buf[j])
  {
    s.buf[30], s.buf[31], s.buf[32], s.buf[33], s.buf[26], s.buf[27], s.buf[28], s.buf[29] :=
      s.buf[26], s.buf[27], s.buf[28], s.buf[29], s.buf[30], s.buf[31], s.buf[32], s.buf[33];
    s.PutAddr(26, s.host);
  }

  /** time_exceeded: no error is sent about an ICMP message. */
  method MakeTimeExceeded(s: Uip.Stack)
    requires s.Valid()
    modifies s.buf, s`len
    ensures if old(s.buf[23]) == PROTO_ICMP then s.buf[..] == old(s.buf[..]) && s.len == 0
      else TimeExceeded(old(s.buf[..]), s.buf[..], s.host) && s.len == 56
  {
    if s.buf[23] == PROTO_ICMP {
      s.len := 0;
      return;
    }
    ghost var b := s.buf[..];
    Quote(s);
    ghost var q := s.buf[..];
    Address(s);
    ghost var m := s.buf[..];
    assert m[34..70] == q[34..70] && m[42..70] == q[42..70];
  }

  /** The TTL and its checksum, one hop on. */
  method Hop(s: Uip.Stack)
    requires s.Valid()
    modifies s.buf
    ensures Decremented(old(s.buf[..]), s.buf[..])
  {
    s.buf[22] := if s.buf[22] == 0 then 0xff else s.buf[22] - 1;
    BumpAt(s.buf, 24, 0x0100, s.bigEndian);
  }

  // ----- the cache of recent packets -----

  const FW_TIME: u16 := 20

  /** What identifies a packet in the cache. */
  datatype Id = Id(src: Addr, dst: Addr, ipid: u16, proto: byte)

  function IdOf(b: seq<byte>): Id
    requires HDR <= |b|
  {
    Id(AddrAt(b, 26), AddrAt(b, 30), At16(b, 18), b[23])
  }

  datatype Entry = Entry(timer: u16, id: Id)

  predicate Holds(t: seq<Entry>, id: Id) {
    exists e <- t :: e.timer != 0 && e.id == id
  }

  /** No entry has longer to live than a new one. */
  predicate Fresh(t: seq<Entry>) {
    |t| > 0 && forall e <- t :: e.timer <= FW_TIME
  }

  /** The entry given up after scanning the first i: the first unused one, else the last of least time. */
  function Victim(t: seq<Entry>, i: nat): (k: int)
    requires i <= |t| && Fresh(t)
    ensures (i > 0 ==> 0 <= k) && -1 <= k < i
    ensures forall j :: 0 <= j < i ==> t[k].timer <= t[j].timer
  {
    if i == 0 then -1
    else
      var k := Victim(t, i - 1);
      if k >= 0 && t[k].timer == 0 then k
      else
        assert t[i - 1] in t;
        if t[i - 1].timer <= (if k < 0 then FW_TIME else t[k].timer) then i - 1 else k
  }

  function Tick(e: Entry): Entry {
    if e.timer > 0 then e.(timer := e.timer - 1) else e
  }

  function TickAll(t: seq<Entry>): (r: seq<Entry>)
    ensures |r| == |t|
  {
    seq(|t|, i requires 0 <= i < |t| => Tick(t[i]))
  }

  class Cache {
    const entries: array<Entry>    // fwcache

    ghost predicate Valid()
      reads this, entries
    {
      Fresh(entries[..])
    }

    constructor (size: nat)
      requires size > 0
      ensures Valid() && fresh(entries) && entries.Length == size && forall id :: !Holds(entries[..], id)
    {
      entries := new Entry[size](_ => Entry(0, Id(Addr(0, 0), Addr(0, 0), 0, 0)));
    }

    /** The search at the start of uip_fw_forward. */
    method Find(id: Id) returns (found: bool)
      ensures found <==> Holds(entries[..], id)
    {
      for i := 0 to entries.Length
        invariant forall j :: 0 <= j < i ==> entries[j].timer == 0 || entries[j].id != id
      {
        if entries[i].timer != 0 && entries[i].id == id {
          assert entries[i] in entries[..];
          return true;
        }
      }
      return false;
    }

    /** fwcache_register. */
    method Register(id: Id)
      requires Valid()
      modifies entries
      ensures Valid()
      ensures var t := old(entries[..]); entries[..] == t[Victim(t, |t|) := Entry(FW_TIME, id)]
    {
      var k := PickEntry();
      ghost var t := entries[..];
      entries[k] := Entry(FW_TIME, id);
      assert entries[..] == t[k := Entry(FW_TIME, id)];
      forall e | e in entries[..]
        ensures e.timer <= FW_TIME
      {
        assert e == Entry(FW_TIME, id) || e in t;
      }
    }

    /** The search for an entry to give up. */
    method PickEntry() returns (k: int)
      requires Valid()
      ensures k == Victim(entries[..], entries.Length)
    {
      var oldest := FW_TIME;
      k := -1;
      var i := 0;
      while i < entries.Length
        invariant 0 <= i <= entries.Length && k == Victim(entries[..], i)
        invariant oldest == if k < 0 then FW_TIME else entries[k].timer
        invariant k >= 0 ==> entries[k].timer > 0
      {
        assert entries[i] in entries[..];
        if entries[i].timer == 0 {
          k := i;
          assert k == Victim(entries[..], i + 1);
          UnusedStays(entries[..], k, i + 1, entries.Length);
          break;
        } else if entries[i].timer <= oldest {
          k := i;
          oldest := entries[i].timer;
        }
        i := i + 1;
      }
    }

    /** uip_fw_periodic. */
    method Periodic()
      requires Valid()
      modifies entries
      ensures Valid() && entries[..] == TickAll(old(entries[..]))
    {
      for i := 0 to entries.Length
        invariant forall j :: 0 <= j < entries.Length ==>
          entries[j] == if j < i then Tick(old(entries[j])) else old(entries[j])
      {
        if entries[i].timer > 0 {
          entries[i] := entries[i].(timer := entries[i].timer - 1);
        }
      }
      assert entries[..] == TickAll(old(entries[..]));
      forall e | e in entries[..]
        ensures e.timer <= FW_TIME
      {
        var i :| 0 <= i < entries.Length && entries[i] == e;
        assert old(entries[..])[i] in old(entries[..]);
      }
    }
  }

  lemma {:induction false} UnusedStays(t: seq<Entry>, k: nat, i: nat, n: nat)
    requires Fresh(t) && k < i <= n <= |t| && t[k].timer == 0 && Victim(t, i) == k
    ensures Victim(t, n) == k
  {
    if i < n {
      UnusedStays(t, k, i, n - 1);
    }
  }

  function TickTimes(t: seq<Entry>, n: nat): seq<Entry> {
    if n == 0 then t else TickAll(TickTimes(t, n - 1))
  }

  lemma {:induction false} TicksOne(t: seq<Entry>, n: nat, k: nat)
    requires k < |t|
    ensures |TickTimes(t, n)| == |t|
    ensures TickTimes(t, n)[k] == t[k].(timer := if t[k].timer > n then t[k].timer - n else 0)
  {
    if n > 0 {
      TicksOne(t, n - 1, k);
    }
  }

  /** A packet once registered is known for exactly 20 periods if no other entry has its identity and
      nothing else is registered; what registering puts out had no longer to live than any other. */
  lemma KnownForTwenty(t: seq<Entry>, id: Id, n: nat)
    requires Fresh(t) && !Holds(t, id)
    ensures var k := Victim(t, |t|);
      && (Holds(TickTimes(t[k := Entry(FW_TIME, id)], n), id) <==> n < 20)
      && forall j :: 0 <= j < |t| ==> t[k].timer <= t[j].timer
  {
    var k := Victim(t, |t|);
    var u := t[k := Entry(FW_TIME, id)];
    var v := TickTimes(u, n);
    TicksOne(u, n, k);
    assert v[k] in v;
    if Holds(v, id) {
      var e :| e in v && e.timer != 0 && e.id == id;
      var j :| 0 <= j < |v| && v[j] == e;
      TicksOne(u, n, j);
      if j != k {
        assert t[j] in t;
      }
    }
  }

  // ----- forwarding -----

  /** UIP_FW_LOCAL, or UIP_FW_FORWARDED without and with a packet handed to uip_fw_output. */
  datatype Fate = Local | Dropped | Forwarded

  /** uip_fw_forward, as far as the choice of the interface. */
  method ForwardPacket(s: Uip.Stack, cache: Cache) returns (fate: Fate)
    requires s.Valid() && cache.Valid()
    modifies s.buf, s`len, cache.entries
    ensures cache.Valid()
    ensures var b, b', seen := old(s.buf[..]), s.buf[..], old(Holds(cache.entries[..], IdOf(s.buf[..])));
      if AddrAt(b, 30) == s.host then fate == Local && b' == b && s.len == old(s.len)
      else if seen then fate == Dropped && b' == b && s.len == old(s.len)
      else if b[22] > 1 then Hopped(b, b') && s.len == old(s.len) && fate == if s.len > 0 then Forwarded else Dropped
      else if AddrAt(b, 30) == BROADCAST then fate == Local && b' == b && s.len == old(s.len)
      else if b[23] == PROTO_ICMP then fate == Dropped && s.len == 0 && Decremented(b, b')
      else fate == Forwarded && s.len == 56 && exists m :: TimeExceeded(b, m, s.host) && Hopped(m, b')
    ensures var t := old(cache.entries[..]);
      cache.entries[..] == if fate == Forwarded then t[Victim(t, |t|) := Entry(FW_TIME, IdOf(s.buf[..]))] else t
  {
    ghost var b := s.buf[..];
    var hi := s.Read16(30);
    var lo := s.Read16(32);
    if Addr(hi, lo) == s.host {
      return Local;
    }
    var id := ReadId(s);
    var seen := cache.Find(id);
    if seen {
      return Dropped;
    }
    if s.buf[22] <= 1 {
      if Addr(hi, lo) == BROADCAST {
        return Local;
      }
      MakeTimeExceeded(s);
    }
    ghost var m := s.buf[..];
    Hop(s);
    fate := Dropped;
    if s.len > 0 {
      id := ReadId(s);
      cache.Register(id);
      fate := Forwarded;
    }
    assert b[22] <= 1 && b[23] != PROTO_ICMP ==> TimeExceeded(b, m, s.host) && Hopped(m, s.buf[..]);
  }

  method ReadId(s: Uip.Stack) returns (id: Id)
    requires s.Valid()
    ensures id == IdOf(s.buf[..])
  {
    var a := s.Read16(26);
    var b := s.Read16(28);
    var c := s.Read16(30);
    var d := s.Read16(32);
    var e := s.Read16(18);
    id := Id(Addr(a, b), Addr(c, d), e, s.buf[23]);
  }

  /** A duplicate of a packet b that left as b' is recognised for exactly 20 periods, if nothing else
      is registered: what is registered is the packet one hop on, but a hop keeps the identity. */
  lemma DuplicateKnown(t: seq<Entry>, b: seq<byte>, b': seq<byte>, n: nat)
    requires Fresh(t) && Hopped(b, b') && !Holds(t, IdOf(b))
    ensures Holds(TickTimes(t[Victim(t, |t|) := Entry(FW_TIME, IdOf(b'))], n), IdOf(b)) <==> n < 20
  {
    assert IdOf(b') == IdOf(b);
    KnownForTwenty(t, IdOf(b), n);
  }

  lemma WordsApart(b: seq<byte>, c: seq<byte>, i: nat)
    requires i + 2 <= |b| && i + 2 <= |c|
    ensures At16(b, i) == At16(c, i) <==> b[i..i + 2] == c[i..i + 2]
  {
    assert b[i..i + 2] == [b[i], b[i + 1]] && c[i..i + 2] == [c[i], c[i + 1]];
  }

  /** Two packets have the same identity exactly if they agree in identifier, protocol and both addresses. */
  lemma IdentityExactly(b: seq<byte>, c: seq<byte>)
    requires HDR <= |b| && HDR <= |c|
    ensures IdOf(b) == IdOf(c) <==> b[18..20] == c[18..20] && b[23] == c[23] && b[26..34] == c[26..34]
  {
    WordsApart(b, c, 18);
    WordsApart(b, c, 26);
    WordsApart(b, c, 28);
    WordsApart(b, c, 30);
    WordsApart(b, c, 32);
    assert b[26..34] == b[26..28] + b[28..30] + b[30..32] + b[32..34];
    assert c[26..34] == c[26..28] + c[28..30] + c[30..32] + c[32..34];
  }

  /** After b was sent on as b', a packet that the cache did not hold before is dropped as a duplicate
      exactly if it agrees with b in those bytes. */
  lemma OnlyDuplicatesDropped(t: seq<Entry>, b: seq<byte>, b': seq<byte>, c: seq<byte>)
    requires Fresh(t) && Hopped(b, b') && HDR <= |c| && !Holds(t, IdOf(c))
    ensures Holds(t[Victim(t, |t|) := Entry(FW_TIME, IdOf(b'))], IdOf(c)) <==>
      b[18..20] == c[18..20] && b[23] == c[23] && b[26..34] == c[26..34]
  {
    IdentityExactly(b, c);
    var k := Victim(t, |t|);
    var u := t[k := Entry(FW_TIME, IdOf(b'))];
    assert IdOf(b') == IdOf(b) && u[k] in u;
    if Holds(u, IdOf(c)) {
      var e :| e in u && e.timer != 0 && e.id == IdOf(c);
      var j :| 0 <= j < |u| && u[j] == e;
    }
  }

  /** Whatever is forwarded can be forwarded on: its header verifies when the header of the packet
      that came in did, and a time-exceeded message verifies in any case. */
  lemma ForwardedVerifies(b: seq<byte>, m: seq<byte>, b': seq<byte>, host: Addr)
    requires HDR <= |b| == |m| && Hopped(m, b')
    requires (m == b && b[14] != 0 && IpSum(b) == 0xffff) || TimeExceeded(b, m, host)
    ensures IpSum(b') == 0xffff && b'[22] == m[22] - 1
    ensures m != b ==> Quotes(b, b') && b'[22] == 63
  {
    HopVerifies(m, b');
    if m != b {
      assert b'[34..70] == m[34..70] && b'[42..70] == m[42..70];
    }
  }
}
