/** The option loop of a SYN: its cursor is 8 bits wide and wraps, so it need not end. When it does. */
module TcpOptions {
  import opened Bytes
  import opened Tcp

  /** The cursor at the start of round n from c, or None if the loop has ended by then. */
  function Cursor(area: seq<byte>, limit: nat, c: byte, n: nat): Option<byte>
    requires 44 <= |area| && limit <= 40
    decreases n
  {
    if n == 0 then Some(c)
    else
      var next := NextCursor(area, limit, c);
      if next == None then None else Cursor(area, limit, next.value, n - 1)
  }

  lemma {:induction false} EndsIsNoCursor(area: seq<byte>, limit: nat, c: byte, n: nat)
    requires 44 <= |area| && limit <= 40
    ensures EndsWithin(area, limit, c, n) <==> Cursor(area, limit, c, n) == None
    decreases n
  {
    if n > 0 {
      var next := NextCursor(area, limit, c);
      if next.Some? {
        EndsIsNoCursor(area, limit, next.value, n - 1);
      }
    }
  }

  /** The walk can be cut at any round. */
  lemma {:induction false} CursorSplit(area: seq<byte>, limit: nat, c: byte, m: nat, n: nat)
    requires 44 <= |area| && limit <= 40
    ensures Cursor(area, limit, c, m + n) ==
      var d := Cursor(area, limit, c, m); if d == None then None else Cursor(area, limit, d.value, n)
    decreases m
  {
    if m > 0 {
      var next := NextCursor(area, limit, c);
      if next.Some? {
        CursorSplit(area, limit, next.value, m - 1, n);
      }
    }
  }

  /** The walk from the first option byte comes to a cursor a second time. */
  ghost predicate Revisits(area: seq<byte>, limit: nat)
    requires 44 <= |area| && limit <= 40
  {
    exists i: nat, j: nat :: Meets(area, limit, i, j)
  }

  predicate Meets(area: seq<byte>, limit: nat, i: nat, j: nat)
    requires 44 <= |area| && limit <= 40
  {
    i < j && Cursor(area, limit, 0, i).Some? && Cursor(area, limit, 0, i) == Cursor(area, limit, 0, j)
  }

  /** The loop ends exactly if the walk over the option bytes never revisits a cursor; and if it ends
      at all, then in one round more than there are option bytes. */
  lemma EndsIfNoRevisit(doff: nibble, area: seq<byte>)
    requires 44 <= |area|
    ensures OptionsEnd(doff, area) <==> !Revisits(area, OptionBytes(doff))
    ensures OptionsEnd(doff, area) <==> exists n: nat :: EndsWithin(area, OptionBytes(doff), 0, n)
  {
    var limit := OptionBytes(doff);
    EndsIsNoCursor(area, limit, 0, limit + 1);
    if !Revisits(area, limit) && !OptionsEnd(doff, area) {
      TooManyCursors(area, limit, limit);
      assert false;
    }
    if exists n: nat :: EndsWithin(area, limit, 0, n) {
      var n: nat :| EndsWithin(area, limit, 0, n);
      EndsIsNoCursor(area, limit, 0, n);
      if Revisits(area, limit) {
        var i: nat, j: nat :| Meets(area, limit, i, j);
        GoesOn(area, limit, i, j, n);
        assert false;
      }
    }
  }

  /** A walk that meets itself goes on for ever. */
  lemma {:induction false} GoesOn(area: seq<byte>, limit: nat, i: nat, j: nat, n: nat)
    requires 44 <= |area| && limit <= 40 && Meets(area, limit, i, j)
    ensures Cursor(area, limit, 0, n).Some?
    decreases n
  {
    if n <= j {
      CursorSplit(area, limit, 0, n, j - n);
    } else {
      GoesOn(area, limit, i, j, n - (j - i));
      CursorSplit(area, limit, 0, j, n - j);
      CursorSplit(area, limit, 0, i, n - j);
      assert i + (n - j) == n - (j - i) && j + (n - j) == n;
    }
  }

  /** The cursors of the first n rounds. */
  ghost function Visited(area: seq<byte>, limit: nat, n: nat): set<int>
    requires 44 <= |area| && limit <= 40
  {
    if n == 0 then {}
    else
      var d := Cursor(area, limit, 0, n - 1);
      Visited(area, limit, n - 1) + if d.Some? then {d.value as int} else {}
  }

  lemma {:induction false} VisitedAt(area: seq<byte>, limit: nat, n: nat, x: int)
    requires 44 <= |area| && limit <= 40 && x in Visited(area, limit, n)
    ensures exists i: nat :: i < n && var d := Cursor(area, limit, 0, i); d.Some? && d.value == x
  {
    if x in Visited(area, limit, n - 1) {
      VisitedAt(area, limit, n - 1, x);
      var i: nat :| i < n - 1 && var d := Cursor(area, limit, 0, i); d.Some? && d.value == x;
    } else {
      var d := Cursor(area, limit, 0, n - 1);
      assert d.Some? && d.value == x;
    }
  }

  /** Without a revisit each round brings a new cursor, and all that go on lie below the limit. */
  lemma {:induction false} VisitedGrows(area: seq<byte>, limit: nat, n: nat)
    requires 44 <= |area| && limit <= 40 && !Revisits(area, limit)
    requires Cursor(area, limit, 0, n).Some?
    ensures |Visited(area, limit, n)| == n && forall x <- Visited(area, limit, n) :: 0 <= x < limit
    decreases n
  {
    if n > 0 {
      CursorSplit(area, limit, 0, n - 1, 1);
      VisitedGrows(area, limit, n - 1);
      var d := Cursor(area, limit, 0, n - 1).value;
      assert Cursor(area, limit, d, 1).Some?;
      if d as int in Visited(area, limit, n - 1) {
        VisitedAt(area, limit, n - 1, d);
        var i: nat :| i < n - 1 && var e := Cursor(area, limit, 0, i); e.Some? && e.value == d;
        assert Meets(area, limit, i, n - 1);
      }
    }
  }

  lemma TooManyCursors(area: seq<byte>, limit: nat, n: nat)
    requires 44 <= |area| && limit <= 40 && !Revisits(area, limit)
    requires n >= limit
    ensures Cursor(area, limit, 0, n + 1) == None
  {
    if Cursor(area, limit, 0, n + 1).Some? {
      VisitedGrows(area, limit, n + 1);
      SubsetSize(Visited(area, limit, n + 1), Below(limit));
      assert false;
    }
  }

  /** No option is so long that it would carry the cursor past 255. */
  predicate NoCarry(area: seq<byte>, limit: nat)
    requires 44 <= |area| && limit <= 40
  {
    forall c :: 0 <= c < limit ==> area[c] == 1 || c + area[c + 1] < 0x100
  }

  /** Then the loop ends. */
  lemma NoCarryEnds(doff: nibble, area: seq<byte>)
    requires 44 <= |area| && NoCarry(area, OptionBytes(doff))
    ensures OptionsEnd(doff, area)
  {
    Climbs(area, OptionBytes(doff), 0, OptionBytes(doff) + 1);
  }

  lemma {:induction false} Climbs(area: seq<byte>, limit: nat, c: byte, rounds: nat)
    requires 44 <= |area| && limit <= 40 && NoCarry(area, limit) && rounds > 0 && c + rounds > limit
    ensures EndsWithin(area, limit, c, rounds)
    decreases rounds
  {
    var next := NextCursor(area, limit, c);
    if next.Some? {
      assert next.value > c;
      Climbs(area, limit, next.value, rounds - 1);
    }
  }

  /** A SYN with the option bytes 1, 3, 255: the cursor goes from 0 to 1 and back to 0, and the loop
      never ends. */
  lemma WrapsForEver(area: seq<byte>)
    requires 44 <= |area| && area[0] == 1 && area[1] == 3 && area[2] == 255
    ensures Cursor(area, OptionBytes(6), 0, 1) == Some(1) && Cursor(area, OptionBytes(6), 0, 2) == Some(0)
    ensures !OptionsEnd(6, area)
  {
    var limit := OptionBytes(6);
    assert NextCursor(area, limit, 0) == Some(1) && NextCursor(area, limit, 1) == Some(0);
    assert Cursor(area, limit, 1, 1) == Some(0);
    assert Cursor(area, limit, 0, 2) == Cursor(area, limit, 1, 1);
    assert Meets(area, limit, 0, 2);
    EndsIfNoRevisit(6, area);
  }

  /** The option that uIP itself sends is always read to the end, and gives its maximum segment size. */
  lemma OwnSynEnds(c: Conn, host: Addr, tcpMss: u16, flags: Ctl, area: seq<byte>)
    requires 44 <= |area|
    requires var seg := Compose(c, host, tcpMss, flags, true, []); seg.body <= area
    ensures var seg := Compose(c, host, tcpMss, flags, true, []);
      OptionsEnd(seg.doff, area) && MssOption(seg.doff, area) == Some(tcpMss)
  {
    var seg := Compose(c, host, tcpMss, flags, true, []);
    assert area[0] == seg.body[0] && area[1] == seg.body[1] && area[2] == seg.body[2] && area[3] == seg.body[3];
    assert NextCursor(area, 4, 0) == None;
  }

  // ----- options in a row -----

  /** An option other than the two that end the list lies at c, and the next one starts at d. */
  predicate Skipped(area: seq<byte>, c: nat, d: nat) {
    c + 1 < |area| &&
    if area[c] == 1 then d == c + 1
    else area[c] != 0 && (area[c] != 2 || area[c + 1] != 4) && area[c + 1] > 0 && d == c + area[c + 1]
  }

  /** Options in a row from cs[0] on, of which the last starts inside the header. */
  predicate Row(area: seq<byte>, limit: nat, cs: seq<nat>) {
    cs != [] && cs[|cs| - 1] < limit && forall i :: 0 <= i < |cs| - 1 ==> Skipped(area, cs[i], cs[i + 1])
  }

  lemma {:induction false} RowClimbs(area: seq<byte>, limit: nat, cs: seq<nat>)
    requires Row(area, limit, cs)
    ensures cs[0] + |cs| - 1 <= cs[|cs| - 1] && cs[0] < limit
    decreases |cs|
  {
    if |cs| > 1 {
      assert Skipped(area, cs[0], cs[1]);
      RowClimbs(area, limit, cs[1..]);
    }
  }

  /** The loop comes to the last of them, in as many rounds. */
  lemma {:induction false} RowIsWalked(area: seq<byte>, limit: nat, cs: seq<nat>, rounds: nat)
    requires 44 <= |area| && limit <= 40 && Row(area, limit, cs) && rounds >= |cs|
    ensures cs[0] < limit
    ensures ScanOptions(area, limit, cs[0], rounds) ==
      ScanOptions(area, limit, cs[|cs| - 1], rounds - (|cs| - 1))
    ensures EndsWithin(area, limit, cs[0], rounds) ==
      EndsWithin(area, limit, cs[|cs| - 1], rounds - (|cs| - 1))
    decreases |cs|
  {
    RowClimbs(area, limit, cs);
    if |cs| > 1 {
      assert Skipped(area, cs[0], cs[1]);
      assert Row(area, limit, cs[1..]);
      RowClimbs(area, limit, cs[1..]);
      OneRound(area, limit, cs[0], cs[1], rounds);
      RowIsWalked(area, limit, cs[1..], rounds - 1);
    }
  }

  lemma OneRound(area: seq<byte>, limit: nat, c: byte, d: byte, rounds: nat)
    requires 44 <= |area| && limit <= 40 && c < limit && Skipped(area, c, d) && rounds > 0
    ensures ScanOptions(area, limit, c, rounds) == ScanOptions(area, limit, d, rounds - 1)
    ensures EndsWithin(area, limit, c, rounds) == EndsWithin(area, limit, d, rounds - 1)
  {
    assert NextCursor(area, limit, c) == Some(d);
  }

  /** After any row of other options, what counts is the option at which the row ends: kind 2 and length 4
      give the maximum segment size in its next two bytes, and the end-of-list byte gives none. */
  lemma SizeIsFound(doff: nibble, area: seq<byte>, cs: seq<nat>)
    requires 44 <= |area| && Row(area, OptionBytes(doff), cs) && cs[0] == 0
    ensures var d := cs[|cs| - 1];
      && (area[d] == 2 && area[d + 1] == 4 ==>
            MssOption(doff, area) == Some((area[d + 2] as int) * 0x100 + area[d + 3]) && OptionsEnd(doff, area))
      && (area[d] == 0 ==> MssOption(doff, area) == None && OptionsEnd(doff, area))
  {
    var limit, d := OptionBytes(doff), cs[|cs| - 1];
    RowClimbs(area, limit, cs);
    RowIsWalked(area, limit, cs, limit + 1);
    if area[d] == 0 || (area[d] == 2 && area[d + 1] == 4) {
      assert NextCursor(area, limit, d) == None;
    }
  }
}
