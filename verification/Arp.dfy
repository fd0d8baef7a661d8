/** The address table of uip_arp.c: a fixed array of entries that stands for a map from IP
    addresses to Ethernet addresses, with ages. */
module Arp {
  import opened Bytes
  import opened Tcp

  const MAXAGE: byte := 120

  datatype Mac = Mac(a: u16, b: u16, c: u16)

  datatype Entry = Entry(ip: Addr, mac: Mac, time: byte)

  /** Both halves of an address are nonzero: the test for entries in use. */
  predicate Whole(a: Addr) {
    a.hi != 0 && a.lo != 0
  }

  predicate Free(e: Entry) {
    e.ip.hi == 0 && e.ip.lo == 0
  }

  // ----- scanning the table -----

  /** The first entry for address a, or |t|: what uip_arp_out finds. */
  function Find(t: seq<Entry>, a: Addr): (i: nat)
    ensures i <= |t| && (i < |t| ==> t[i].ip == a) && forall k :: 0 <= k < i ==> t[k].ip != a
  {
    if t == [] || t[0].ip == a then 0 else 1 + Find(t[1..], a)
  }

  function FindFree(t: seq<Entry>): (i: nat)
    ensures i <= |t| && (i < |t| ==> Free(t[i])) && forall k :: 0 <= k < i ==> !Free(t[k])
  {
    if t == [] || Free(t[0]) then 0 else 1 + FindFree(t[1..])
  }

  /** The age of an entry as the code computes it, on int. */
  function Age(e: Entry, now: byte): int {
    now - e.time
  }

  /** The first entry of greatest age among the first n, if any age is positive; else entry 0. */
  function Oldest(t: seq<Entry>, now: byte, n: nat): (c: nat)
    requires n <= |t| && |t| > 0
    ensures c < |t| && (c < n || c == 0)
    ensures forall k :: 0 <= k < n ==> Age(t[k], now) <= Age(t[c], now) || Age(t[k], now) <= 0
  {
    if n == 0 then 0
    else
      var c := Oldest(t, now, n - 1);
      if Age(t[n - 1], now) > (if Age(t[c], now) > 0 then Age(t[c], now) else 0) then n - 1 else c
  }

  /** The entry uip_arp_update fills in: the one in use for a, else a free one, else the oldest. */
  function SlotFor(t: seq<Entry>, a: Addr, now: byte): (k: nat)
    requires |t| > 0
    ensures k < |t|
  {
    if Whole(a) && Find(t, a) < |t| then Find(t, a)
    else if FindFree(t) < |t| then FindFree(t)
    else Oldest(t, now, |t|)
  }

  class Table {
    const table: array<Entry>    // arp_table
    var arptime: byte

    ghost predicate Valid()
      reads this
    {
      0 < table.Length < 0x100
    }

    constructor (size: nat)
      requires 0 < size < 0x100
      ensures Valid() && fresh(table) && table.Length == size && arptime == 0
      ensures WellFormed(table[..]) && Mapping(table[..]) == map[]
    {
      table := new Entry[size](_ => Entry(Addr(0, 0), Mac(0, 0, 0), 0));
      arptime := 0;
    }

    /** uip_arp_update. */
    method Update(a: Addr, mac: Mac)
      requires Valid()
      modifies table
      ensures Valid()
      ensures table[..] == old(table[..])[SlotFor(old(table[..]), a, arptime) := Entry(a, mac, arptime)]
    {
      var k := Match(a);
      if k == table.Length {
        k := Unused();
        if k == table.Length {
          k := Eldest();
        }
      }
      table[k] := Entry(a, mac, arptime);
    }

    /** The first loop: the entry in use for a. */
    method Match(a: Addr) returns (k: nat)
      ensures k == if Whole(a) then Find(table[..], a) else table.Length
    {
      k := 0;
      while k < table.Length
        invariant 0 <= k <= table.Length
        invariant Whole(a) ==> forall j :: 0 <= j < k ==> table[j].ip != a
      {
        if table[k].ip.hi != 0 && table[k].ip.lo != 0 {
          if a.hi == table[k].ip.hi && a.lo == table[k].ip.lo {
            assert table[..][k].ip == a;
            return;
          }
        }
        k := k + 1;
      }
    }

    /** The second loop: an unused entry. */
    method Unused() returns (k: nat)
      ensures k == FindFree(table[..])
    {
      k := 0;
      while k < table.Length
        invariant 0 <= k <= table.Length
        invariant forall j :: 0 <= j < k ==> !Free(table[j])
      {
        if table[k].ip.hi == 0 && table[k].ip.lo == 0 {
          assert Free(table[..][k]);
          return;
        }
        k := k + 1;
      }
    }

    /** The third loop: the oldest entry. */
    method Eldest() returns (c: nat)
      requires Valid()
      ensures c == Oldest(table[..], arptime, table.Length)
    {
      var tmpage := 0;
      c := 0;
      for i := 0 to table.Length
        invariant c == Oldest(table[..], arptime, i)
        invariant c < table.Length
        invariant tmpage == if Age(table[c], arptime) > 0 && i > 0 then Age(table[c], arptime) else 0
        invariant i == 0 ==> c == 0
      {
        if arptime - table[i].time > tmpage {
          tmpage := arptime - table[i].time;
          c := i;
        }
      }
    }

    /** The search of uip_arp_out. */
    method Lookup(a: Addr) returns (r: Option<Mac>)
      ensures r == var i := Find(table[..], a); if i < table.Length then Some(table[i].mac) else None
    {
      var i := 0;
      while i < table.Length
        invariant 0 <= i <= table.Length
        invariant forall j :: 0 <= j < i ==> table[j].ip != a
      {
        if table[i].ip == a {
          assert table[..][i].ip == a;
          return Some(table[i].mac);
        }
        i := i + 1;
      }
      return None;
    }

    /** uip_arp_timer. */
    method Timer()
      requires Valid()
      modifies this`arptime, table
      ensures Valid() && arptime == (old(arptime) + 1) % 0x100 && table[..] == Expire(old(table[..]), arptime)
    {
      arptime := (arptime + 1) % 0x100;
      for i := 0 to table.Length
        invariant arptime == (old(arptime) + 1) % 0x100
        invariant forall j :: 0 <= j < table.Length ==>
          table[j] == if j < i then Aged(old(table[j]), arptime) else old(table[j])
      {
        if (table[i].ip.hi != 0 || table[i].ip.lo != 0) && arptime - table[i].time >= MAXAGE {
          table[i] := table[i].(ip := Addr(0, 0));
        }
      }
    }
  }

  /** What one timer step leaves of an entry. */
  function Aged(e: Entry, now: byte): Entry {
    if !Free(e) && Age(e, now) >= MAXAGE then e.(ip := Addr(0, 0)) else e
  }

  function Expire(t: seq<Entry>, now: byte): (r: seq<Entry>)
    ensures |r| == |t|
  {
    seq(|t|, i requires 0 <= i < |t| => Aged(t[i], now))
  }

  // ----- the map the table stands for -----

  /** Every entry that is not free is in use, and no address has two. */
  predicate WellFormed(t: seq<Entry>) {
    && (forall e <- t :: Free(e) || Whole(e.ip))
    && (forall i, j :: 0 <= i < j < |t| && t[i].ip == t[j].ip ==> Free(t[i]))
  }

  ghost function Known(t: seq<Entry>): set<Addr> {
    set e <- t | !Free(e) :: e.ip
  }

  ghost function Mapping(t: seq<Entry>): map<Addr, Entry> {
    map a | a in Known(t) :: t[Find(t, a)]
  }

  lemma MappingAt(t: seq<Entry>, i: nat)
    requires WellFormed(t) && i < |t| && !Free(t[i])
    ensures t[i].ip in Mapping(t) && Mapping(t)[t[i].ip] == t[i] && Find(t, t[i].ip) == i
  {
    assert t[i] in t;
    var k := Find(t, t[i].ip);
    assert k <= i;
  }

  /** The entry in slot k may be overwritten by e: no other slot holds e's address. */
  predicate Fit(t: seq<Entry>, k: nat, e: Entry) {
    WellFormed(t) && k < |t| && Whole(e.ip) && (Find(t, e.ip) == |t| || Find(t, e.ip) == k)
  }

  lemma OverwriteKeeps(t: seq<Entry>, k: nat, e: Entry)
    requires Fit(t, k, e)
    ensures WellFormed(t[k := e])
  {
    forall j: nat | j < |t| && j != k
      ensures t[j].ip != e.ip
    {
      DifferentAddress(t, k, j, e.ip);
    }
  }

  /** The other entries: address a is known with the same entry before and after. */
  lemma OverwriteOthers(t: seq<Entry>, k: nat, e: Entry, a: Addr)
    requires Fit(t, k, e) && a != e.ip
    ensures a in Mapping(t[k := e]) <==> a in Mapping(t) && (Free(t[k]) || a != t[k].ip)
    ensures a in Mapping(t[k := e]) ==> Mapping(t[k := e])[a] == Mapping(t)[a]
  {
    OverwriteKeeps(t, k, e);
    var t' := t[k := e];
    if a in Mapping(t') {
      var i := Find(t', a);
      assert t[i] == t'[i] && !Free(t[i]);
      MappingAt(t, i);
      if !Free(t[k]) {
        MappingAt(t, k);
      }
    }
    if a in Mapping(t) && (Free(t[k]) || a != t[k].ip) {
      var i := Find(t, a);
      assert t[i] == t'[i] && !Free(t[i]);
      MappingAt(t', i);
    }
  }

  /** An entry overwritten by one for another address. */
  lemma OverwriteMaps(t: seq<Entry>, k: nat, e: Entry)
    requires Fit(t, k, e)
    ensures WellFormed(t[k := e])
    ensures Mapping(t[k := e]) == (if Free(t[k]) then Mapping(t) else Mapping(t) - {t[k].ip})[e.ip := e]
  {
    OverwriteKeeps(t, k, e);
    MappingAt(t[k := e], k);
    var m, m' := (if Free(t[k]) then Mapping(t) else Mapping(t) - {t[k].ip})[e.ip := e], Mapping(t[k := e]);
    forall a: Addr
      ensures Agree(m, m', a)
    {
      if a != e.ip {
        OverwriteOthers(t, k, e, a);
      }
    }
    SameMap(m, m');
  }

  ghost predicate Agree(m: map<Addr, Entry>, m': map<Addr, Entry>, a: Addr) {
    (a in m <==> a in m') && (a in m ==> m[a] == m'[a])
  }

  lemma SameMap(m: map<Addr, Entry>, m': map<Addr, Entry>)
    requires forall a: Addr :: Agree(m, m', a)
    ensures m == m'
  {
    assert forall a: Addr :: Agree(m, m', a) ==> (a in m <==> a in m') && (a in m ==> m[a] == m'[a]);
  }

  /** Only slot k can hold address a. */
  lemma DifferentAddress(t: seq<Entry>, k: nat, j: nat, a: Addr)
    requires WellFormed(t) && k < |t| && j < |t| && j != k && Whole(a) && (Find(t, a) == |t| || Find(t, a) == k)
    ensures t[j].ip != a
  {
    if t[j].ip == a {
      MappingAt(t, j);
    }
  }

  /** Learning an address keeps the table well formed, makes the address known with its new Ethernet
      address, and leaves all others alone, but for one of greatest age when the table is full. */
  lemma UpdateRefines(t: seq<Entry>, a: Addr, mac: Mac, now: byte)
    requires WellFormed(t) && |t| > 0 && Whole(a)
    ensures var e, m, t' := Entry(a, mac, now), Mapping(t), t[SlotFor(t, a, now) := Entry(a, mac, now)];
      && WellFormed(t')
      && Find(t', a) == SlotFor(t, a, now)
      && if a in m || FindFree(t) < |t| then Mapping(t') == m[a := e]
         else exists v <- m :: Mapping(t') == (m - {v})[a := e] &&
                forall b <- m :: Age(m[b], now) <= Age(m[v], now) || Age(m[b], now) <= 0
  {
    var e, m, k := Entry(a, mac, now), Mapping(t), SlotFor(t, a, now);
    KnownIffFound(t, a);
    if Find(t, a) < |t| {
      OverwriteKnown(t, k, e);
    } else {
      OverwriteMaps(t, k, e);
      if FindFree(t) == |t| {
        MappingAt(t, k);
        OldestInMap(t, now);
      }
    }
    MappingAt(t[k := e], k);
  }

  lemma KnownIffFound(t: seq<Entry>, a: Addr)
    requires WellFormed(t) && Whole(a)
    ensures a in Mapping(t) <==> Find(t, a) < |t|
  {
    if Find(t, a) < |t| {
      MappingAt(t, Find(t, a));
    }
  }

  lemma OverwriteKnown(t: seq<Entry>, k: nat, e: Entry)
    requires Fit(t, k, e) && t[k].ip == e.ip
    ensures WellFormed(t[k := e]) && Mapping(t[k := e]) == Mapping(t)[e.ip := e]
  {
    OverwriteMaps(t, k, e);
    assert (Mapping(t) - {e.ip})[e.ip := e] == Mapping(t)[e.ip := e];
  }

  lemma OldestInMap(t: seq<Entry>, now: byte)
    requires WellFormed(t) && |t| > 0 && FindFree(t) == |t|
    ensures var m, c := Mapping(t), t[Oldest(t, now, |t|)];
      forall b <- m :: Age(m[b], now) <= Age(c, now) || Age(m[b], now) <= 0
  {
    forall b | b in Mapping(t)
      ensures Age(Mapping(t)[b], now) <= Age(t[Oldest(t, now, |t|)], now) || Age(Mapping(t)[b], now) <= 0
    {
      assert Mapping(t)[b] == t[Find(t, b)];
    }
  }

  /** A timer step forgets exactly the addresses whose age has reached the limit. */
  lemma TimerRefines(t: seq<Entry>, now: byte)
    requires WellFormed(t)
    ensures WellFormed(Expire(t, now))
    ensures Mapping(Expire(t, now)) == Young(Mapping(t), now)
  {
    ExpireKeeps(t, now);
    var m, m' := Young(Mapping(t), now), Mapping(Expire(t, now));
    forall a: Addr
      ensures Agree(m, m', a)
    {
      ExpireAt(t, now, a);
    }
    SameMap(m, m');
  }

  /** The addresses whose age is below the limit. */
  ghost function Young(m: map<Addr, Entry>, now: byte): map<Addr, Entry> {
    map a | a in m && Age(m[a], now) < MAXAGE :: m[a]
  }

  lemma ExpireKeeps(t: seq<Entry>, now: byte)
    requires WellFormed(t)
    ensures WellFormed(Expire(t, now))
  {
    var t' := Expire(t, now);
    assert forall i :: 0 <= i < |t| ==> t'[i] == Aged(t[i], now);
    assert forall i :: 0 <= i < |t| && !Free(t'[i]) ==> t'[i].ip == t[i].ip && !Free(t[i]);
  }

  lemma ExpireAt(t: seq<Entry>, now: byte, a: Addr)
    requires WellFormed(t) && WellFormed(Expire(t, now))
    ensures var m, m' := Mapping(t), Mapping(Expire(t, now));
      && (a in m' <==> a in m && Age(m[a], now) < MAXAGE)
      && (a in m' ==> m'[a] == m[a])
  {
    var t' := Expire(t, now);
    if a in Mapping(t') {
      var i := Find(t', a);
      assert t'[i] == Aged(t[i], now) == t[i];
      MappingAt(t, i);
    }
    if a in Mapping(t) {
      var i := Find(t, a);
      MappingAt(t, i);
      if Age(t[i], now) < MAXAGE {
        assert t'[i] == t[i];
        MappingAt(t', i);
      }
    }
  }

  // ----- where it stops being a map -----

  /** For any table and any address: what was learnt last is what is found exactly if no earlier
      entry has the address. For an address with both halves nonzero that is always so. */
  lemma LastLearntIsFound(t: seq<Entry>, a: Addr, mac: Mac, now: byte)
    requires |t| > 0
    ensures var k := SlotFor(t, a, now);
      && (Find(t[k := Entry(a, mac, now)], a) == k <==> k <= Find(t, a))
      && (Whole(a) ==> k <= Find(t, a))
  {
    var k := SlotFor(t, a, now);
    var t' := t[k := Entry(a, mac, now)];
    assert t'[k].ip == a;
    var i, j := Find(t', a), Find(t, a);
    if k <= j {
      assert forall l :: 0 <= l < k ==> t'[l].ip == t[l].ip;
    } else {
      assert t'[j].ip == a;
    }
  }

  /** An address with one half zero is never recognised: learnt twice, while two entries are unused, it
      takes both, and the first, outdated one is found. */
  lemma HalfZeroLearntTwice(t: seq<Entry>, a: Addr, mac: Mac, mac': Mac, now: byte, k: nat)
    requires WellFormed(t) && !Whole(a) && a != Addr(0, 0)
    requires FindFree(t) < k < |t| && Free(t[k])
    ensures var t1 := t[SlotFor(t, a, now) := Entry(a, mac, now)];
      var t2 := t1[SlotFor(t1, a, now) := Entry(a, mac', now)];
      && SlotFor(t, a, now) < SlotFor(t1, a, now) && t2[SlotFor(t1, a, now)].ip == a
      && Find(t2, a) < |t| && t2[Find(t2, a)] == Entry(a, mac, now)
  {
    var i := FindFree(t);
    var t1 := t[i := Entry(a, mac, now)];
    assert Free(t1[k]);
    assert forall j :: 0 <= j <= i ==> !Free(t1[j]);
    var t2 := t1[FindFree(t1) := Entry(a, mac', now)];
    assert t2[i].ip == a;
    assert forall j :: 0 <= j < i ==> t2[j] == t[j] && t[j] in t;
  }

  /** The value of arptime n steps after it was s. */
  function Clock(s: byte, n: nat): byte {
    (s + n) % 0x100
  }

  /** An entry after n timer steps from time `now`. */
  function Steps(e: Entry, now: byte, n: nat): Entry {
    if n == 0 then e else Aged(Steps(e, now, n - 1), Clock(now, n))
  }

  /** arptime wraps at 256 but ages are computed on int: an entry stamped at most 135 is forgotten after
      exactly 120 steps, and one stamped later is never forgotten. */
  lemma {:induction false} ExpiresIfStampedEarly(e: Entry, n: nat)
    requires !Free(e)
    ensures Steps(e, e.time, n) == if e.time <= 135 && n >= MAXAGE then e.(ip := Addr(0, 0)) else e
  {
    if n > 0 {
      ExpiresIfStampedEarly(e, n - 1);
    }
  }
}
