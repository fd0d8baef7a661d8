/** The readers of psock.c: a stream that arrives in pieces, one callback of the application at a
    time, is read line by line or block by block. */
module Psock {
  import opened Bytes

  /** One callback of the application: with new data in uip_appdata, or for another reason. */
  datatype Event = New(data: seq<byte>) | Other

  datatype State = NONE | READ | BLOCKED_NEWDATA

  /** The stream that a sequence of callbacks delivers. */
  function Stream(events: seq<Event>): seq<byte> {
    if events == [] then []
    else (if events[0].New? then events[0].data else []) + Stream(events[1..])
  }

  /** The length of the first line of s: up to and including the end marker, or all of s. */
  function LineLength(s: seq<byte>, marker: byte): (n: nat)
    ensures n <= |s|
    ensures if marker in s then n > 0 && s[n - 1] == marker && marker !in s[..n - 1] else n == |s|
  {
    if s == [] then 0
    else if s[0] == marker then 1
    else
      var n := LineLength(s[1..], marker);
      assert marker in s <==> marker in s[1..];
      assert marker in s ==> s[..n] == [s[0]] + s[1..][..n - 1];
      1 + n
  }

  lemma {:induction false} LineAcross(a: seq<byte>, b: seq<byte>, marker: byte)
    ensures LineLength(a + b, marker) == if marker in a then LineLength(a, marker) else |a| + LineLength(b, marker)
  {
    if a == [] {
      assert a + b == b;
    } else {
      assert (a + b)[1..] == a[1..] + b;
      LineAcross(a[1..], b, marker);
    }
  }

  /** Past bytes that are not the marker, the line goes on. */
  lemma LineFrom(d: seq<byte>, k: nat, marker: byte)
    requires k <= |d| && marker !in d[..k]
    ensures LineLength(d, marker) == k + LineLength(d[k..], marker) && (marker in d <==> marker in d[k..])
    ensures k < |d| && d[k] == marker ==> LineLength(d, marker) == k + 1 && marker in d
    ensures k < |d| && d[k] != marker ==> marker !in d[..k + 1]
  {
    assert d == d[..k] + d[k..];
    LineAcross(d[..k], d[k..], marker);
    if k < |d| {
      assert d[..k + 1] == d[..k] + [d[k]];
    }
  }

  /** The part of a text that a buffer of the given size holds. */
  function Head(s: seq<byte>, size: nat): seq<byte> {
    s[..Min(size, |s|)]
  }

  lemma HeadGrows(a: seq<byte>, b: seq<byte>, size: nat)
    ensures Head(a + b, size) == Head(a, size) + Head(b, size - Min(size, |a|))
  {
  }

  lemma Regroup(a: seq<byte>, d: seq<byte>, rest: seq<byte>, n: nat)
    requires n <= |d|
    ensures a + (d + rest) == (a + d[..n]) + (d[n..] + rest)
  {
    assert d == d[..n] + d[n..];
    assert d + rest == d[..n] + (d[n..] + rest);
  }

  /** One more piece d of the stream is taken up to the marker. */
  lemma LineStep(taken: seq<byte>, d: seq<byte>, rest: seq<byte>, marker: byte)
    requires marker !in taken
    ensures marker in d ==>
      var stream := taken + (d + rest);
        marker in stream && stream[..LineLength(stream, marker)] == taken + d[..LineLength(d, marker)]
    ensures marker !in d ==> marker !in taken + d
  {
    if marker in d {
      LineAcross(taken, d + rest, marker);
      LineAcross(d, rest, marker);
      TakeAcross(taken, d, rest, LineLength(d, marker));
    }
  }

  /** The whole of one round: the piece d in hand, with rest still to come. */
  lemma ReadStep(stream: seq<byte>, taken: seq<byte>, d: seq<byte>, rest: seq<byte>, marker: byte, size: nat)
    requires marker !in taken && stream == taken + (d + rest)
    ensures var k := LineLength(d, marker);
      && stream == (taken + d[..k]) + (d[k..] + rest)
      && Head(taken + d[..k], size) == Head(taken, size) + Head(d[..k], size - Min(size, |taken|))
      && if marker in d then marker in stream && taken + d[..k] == stream[..LineLength(stream, marker)]
         else marker !in taken + d[..k]
  {
    var k := LineLength(d, marker);
    LineStep(taken, d, rest, marker);
    Regroup(taken, d, rest, k);
    HeadGrows(taken, d[..k], size);
    if marker !in d {
      assert d[..k] == d;
    }
  }

  /** The buffer has taken k bytes of d before the end of the line, and either d or the room is used up. */
  lemma LineBeyond(d: seq<byte>, k: nat, room: nat, marker: byte)
    requires k <= |d| && k <= room && marker !in d[..k] && (k == |d| || k == room)
    ensures var n := LineLength(d, marker);
      && Head(d[..n], room) == d[..k]
      && d[k..][LineLength(d[k..], marker)..] == d[n..]
      && (marker in d <==> marker in d[k..])
  {
    LineFrom(d, k, marker);
    if k == |d| {
      assert d[..k] == d;
    }
  }

  lemma TakeAcross(a: seq<byte>, d: seq<byte>, rest: seq<byte>, n: nat)
    requires n <= |d|
    ensures (a + (d + rest))[..|a| + n] == a + d[..n]
  {
  }

  class Socket {
    const buffer: array<byte>   // bufptr, bufsize
    var pos: nat                // buf.ptr - bufptr
    var left: nat               // buf.left
    var data: seq<byte>         // what readptr and readlen delimit
    var state: State
    var current: Event          // the callback in progress

    ghost predicate Valid()
      reads this
    {
      && buffer.Length < 0x1_0000 && pos + left == buffer.Length
      && (buffer.Length > 0 && data != [] ==> state == READ)
    }

    constructor (buffer: array<byte>, current: Event)
      requires buffer.Length < 0x1_0000
      ensures Valid() && this.buffer == buffer && this.current == current
      ensures forall events :: Unread(events) == (if current.New? then current.data else []) + Stream(events)
    {
      this.buffer, this.current := buffer, current;
      pos, left, data, state := 0, buffer.Length, [], NONE;
    }

    /** All that the reader has still to read: the rest of the data in hand, or the data of the
        callback in progress if it has not been taken, and what later callbacks bring. */
    ghost function Unread(events: seq<Event>): seq<byte>
      reads this
    {
      (if data == [] && state != READ && current.New? then current.data else data) + Stream(events)
    }

    /** The bytes buffered since the reader started. */
    ghost function Buffered(): seq<byte>
      requires Valid()
      reads this, buffer
    {
      buffer[..pos]
    }

    /** The next callback begins while no reader waits; `there` is what its data has left where the
        data in hand was. The new data is lost to the next reader if the previous one had just taken
        all there was, for then it passes for data already read; and data left over has been
        overwritten. */
    method NextCallback(e: Event, there: seq<byte>)
      requires Valid() && |there| == |data|
      modifies this`current, this`data
      ensures Valid() && current == e
      ensures forall events ::
        Unread(events) == (if there == [] && e.New? && state != READ then e.data else there) + Stream(events)
    {
      current, data := e, there;
    }

    /** PT_RESTART: a reader whose buffer has no room starts again in the next callback, for ever. */
    method Restart(e: Event)
      requires Valid() && buffer.Length == 0
      modifies this`state, this`current
      ensures Valid() && current == e && state == NONE
    {
      state, current := NONE, e;
    }

    method Setup()
      requires Valid()
      modifies this`pos, this`left
      ensures Valid() && pos == 0
    {
      pos, left := 0, buffer.Length;
    }

    /** psock_newdata. */
    method Newdata() returns (b: bool)
      modifies this`state
      ensures b <==> data != [] || (old(state) != READ && current.New?)
      ensures state == if data == [] && old(state) == READ then BLOCKED_NEWDATA else old(state)
    {
      if data != [] {
        b := true;
      } else if state == READ {
        state := BLOCKED_NEWDATA;
        b := false;
      } else {
        b := current.New?;
      }
    }

    /** `PT_WAIT_UNTIL(psock_newdata(psock))` and what follows it: the thread is left and entered
        again by one callback after another, of which n have been used. */
    method Await(events: seq<Event>, n: nat) returns (n': nat, ok: bool)
      requires Valid() && data == [] && n <= |events|
      modifies this`state, this`data, this`current
      ensures Valid() && n <= n' <= |events|
      ensures ok ==> state == READ && Unread(events[n'..]) == old(Unread(events[n..]))
      ensures ok ==> n' > n || old(state) != READ
      ensures !ok ==> n' == |events| && data == [] && old(Unread(events[n..])) == []
    {
      n' := n;
      ok := Newdata();
      while !ok && n' < |events|
        invariant n <= n' <= |events| && data == []
        invariant ok ==> current.New? && old(Unread(events[n..])) == current.data + Stream(events[n'..])
        invariant ok ==> n' > n || old(state) != READ
        invariant !ok ==> old(Unread(events[n..])) == Stream(events[n'..])
        invariant state != READ
        decreases |events| - n', !ok
      {
        assert events[n'..][0] == events[n'] && events[n'..][1..] == events[n' + 1..];
        current := events[n'];
        n' := n' + 1;
        ok := Newdata();
      }
      if ok {
        state := READ;
        data := current.data;
      }
    }

    // ----- lines -----

    /** buf_bufto: takes the data in hand up to the end marker, and buffers what there is room for. */
    method BufTo(marker: byte) returns (found: bool)
      requires Valid()
      modifies this`pos, this`left, this`data, buffer
      ensures Valid() && found == (marker in old(data))
      ensures var n := LineLength(old(data), marker);
        data == old(data)[n..] && Buffered() == old(Buffered()) + Head(old(data)[..n], old(left))
    {
      ghost var d, room := data, left;
      found := Fill(marker);
      ghost var k := |d| - |data|;
      if found {
        assert Head(d[..k], room) == d[..k];
        return;
      }
      LineBeyond(d, k, room, marker);
      if data == [] {
        return;
      }
      found := Skip(marker);
    }

    /** The loop of buf_bufto that fills the buffer. */
    method Fill(marker: byte) returns (found: bool)
      requires Valid()
      modifies this`pos, this`left, this`data, buffer
      ensures Valid() && |data| <= |old(data)|
      ensures var k := |old(data)| - |data|;
        && data == old(data)[k..] && Buffered() == old(Buffered()) + old(data)[..k] && k <= old(left)
        && (found ==> marker in old(data) && k == LineLength(old(data), marker))
        && (!found ==> marker !in old(data)[..k] && (k == |old(data)| || k == old(left)))
    {
      ghost var d, k := data, 0;
      while left > 0 && data != []
        invariant Valid() && k <= |d| && data == d[k..] && pos == old(pos) + k
        invariant marker !in d[..k]
        invariant Buffered() == old(Buffered()) + d[..k]
        decreases |data|
      {
        LineFrom(d, k, marker);
        var c := Move();
        k := k + 1;
        assert d[..k] == d[..k - 1] + [c];
        if c == marker {
          return true;
        }
      }
      return false;
    }

    /** `c = *buf->ptr = **dataptr`, with the pointers and counts moved on. */
    method Move() returns (c: byte)
      requires Valid() && left > 0 && data != []
      modifies this`pos, this`left, this`data, buffer
      ensures Valid() && c == old(data)[0] && data == old(data)[1..] && pos == old(pos) + 1
      ensures Buffered() == old(Buffered()) + [c]
    {
      c := data[0];
      buffer[pos] := c;
      assert buffer[..pos + 1] == old(buffer[..pos]) + [c];
      data := data[1..];
      pos, left := pos + 1, left - 1;
    }

    /** The loop of buf_bufto that finds no room: the rest of the line is dropped. */
    method Skip(marker: byte) returns (found: bool)
      requires Valid()
      modifies this`data
      ensures Valid() && found == (marker in old(data)) && data == old(data)[LineLength(old(data), marker)..]
    {
      ghost var d, k := data, 0;
      while data != []
        invariant Valid() && k <= |d| && data == d[k..] && marker !in d[..k]
        decreases |data|
      {
        LineFrom(d, k, marker);
        var c := data[0];
        data := data[1..];
        k := k + 1;
        if c == marker {
          return true;
        }
      }
      LineFrom(d, k, marker);
      return false;
    }

    /** What has been taken of the stream, all or part of its first line, and what is buffered of it. */
    ghost predicate Taken(stream: seq<byte>, taken: seq<byte>, rest: seq<byte>, marker: byte, ok: bool)
      requires Valid()
      reads this, buffer
    {
      && stream == taken + rest && Buffered() == Head(taken, buffer.Length)
      && if ok then marker in stream && taken == stream[..LineLength(stream, marker)] else marker !in taken
    }

    /** The data in hand is taken up to the marker. */
    method LineRound(marker: byte, ghost stream: seq<byte>, ghost taken: seq<byte>, ghost rest: seq<byte>)
      returns (ok: bool, ghost taken': seq<byte>)
      requires Valid() && (buffer.Length > 0 ==> Taken(stream, taken, data + rest, marker, false))
      modifies this`pos, this`left, this`data, buffer
      ensures Valid() && |data| <= |old(data)| && (!ok ==> data == [])
      ensures buffer.Length > 0 ==> Taken(stream, taken', data + rest, marker, ok) && (ok ==> pos > 0)
    {
      ghost var d, k := data, LineLength(data, marker);
      if buffer.Length > 0 {
        ReadStep(stream, taken, d, rest, marker, buffer.Length);
      }
      ok := BufTo(marker);
      taken' := taken + d[..k];
    }

    /** One round of the loop of psock_readto: without data in hand, the next callback that brings
        some is awaited; `end` if there is none. */
    method NextRound(marker: byte, events: seq<Event>, n: nat, ghost stream: seq<byte>, ghost taken: seq<byte>)
      returns (n': nat, ok: bool, end: bool, ghost taken': seq<byte>)
      requires Valid() && n <= |events|
      requires buffer.Length > 0 ==> Taken(stream, taken, Unread(events[n..]), marker, false)
      modifies this, buffer
      ensures Valid() && n <= n' <= |events|
      ensures end ==> !ok && n' == |events| && (buffer.Length > 0 ==> marker !in stream)
      ensures !end ==> state == READ || old(data) != []
      ensures !end && n' == n ==> if old(data) == [] then old(state) != READ else state == old(state)
      ensures !end && !ok ==> data == [] && (n' == n && old(data) != [] ==> |data| < |old(data)|)
      ensures !end && buffer.Length > 0 ==>
        Taken(stream, taken', Unread(events[n'..]), marker, ok) && (ok ==> pos > 0) && state == READ
    {
      n', ok, end, taken' := n, true, false, taken;
      if data == [] {
        n', ok := Await(events, n);
      }
      if !ok {
        if buffer.Length > 0 {
          assert stream == taken + [];
        }
        end := true;
        return;
      }
      ok, taken' := LineRound(marker, stream, taken, Stream(events[n'..]));
    }

    /** psock_readto: the buffer holds as much of the line as fits, and the rest of the stream is
        still to be read. How the stream was cut into callbacks does not matter. */
    method ReadTo(marker: byte, events: seq<Event>) returns (n: nat, ok: bool)
      requires Valid()
      modifies this, buffer
      ensures Valid() && n <= |events|
      ensures if buffer.Length == 0 then !ok && n == |events| else ok == (marker in old(Unread(events)))
      ensures ok ==>
        var stream := old(Unread(events));
        var line := stream[..LineLength(stream, marker)];
        Buffered() == Head(line, buffer.Length) && Unread(events[n..]) == stream[|line|..] && state == READ
    {
      ghost var stream, taken: seq<byte> := Unread(events), [];
      var end := false;
      Setup();
      n, ok := 0, false;
      assert events[0..] == events;
      while !ok
        invariant Valid() && n <= |events|
        invariant buffer.Length == 0 ==> !ok
        invariant buffer.Length > 0 ==> Taken(stream, taken, Unread(events[n..]), marker, ok)
        invariant buffer.Length > 0 && ok ==> state == READ
        decreases !ok, |events| - n, if state == READ then 0 else 1, |data|
      {
        n, ok, end, taken := NextRound(marker, events, n, stream, taken);
        if end {
          return;
        }
        if ok && pos == 0 {
          ok := false;
          if n == |events| {
            return;
          }
          Restart(events[n]);
          n := n + 1;
        }
      }
    }

    // ----- blocks -----

    /** buf_bufdata: true if the buffer is now full. */
    method BufData() returns (full: bool)
      requires Valid()
      modifies this`pos, this`left, this`data, buffer
      ensures Valid() && full == (|old(data)| >= old(left))
      ensures var n := Min(|old(data)|, old(left));
        data == old(data)[n..] && Buffered() == old(Buffered()) + old(data)[..n]
    {
      ghost var d := data;
      if |data| < left {
        Copy(|data|);
        full := false;
      } else if |data| == left {
        Copy(|data|);
        full := true;
      } else {
        Copy(left);
        full := true;
      }
    }

    /** `memcpy(buf->ptr, *dataptr, n)`, with the pointers and counts moved on. */
    method Copy(n: nat)
      requires Valid() && n <= |data| && n <= left
      modifies this`pos, this`left, this`data, buffer
      ensures Valid() && data == old(data)[n..] && Buffered() == old(Buffered()) + old(data)[..n]
    {
      for i := 0 to n
        invariant pos == old(pos) && data == old(data) && left == old(left)
        invariant buffer[..pos + i] == old(buffer[..pos]) + data[..i]
      {
        buffer[pos + i] := data[i];
        assert buffer[..pos + i + 1] == buffer[..pos + i] + [data[i]];
      }
      pos, left, data := pos + n, left - n, data[n..];
    }

    /** psock_readbuf: the buffer holds the first bytes of the stream, and the rest is still to be
        read. How the stream was cut into callbacks does not matter. */
    method ReadBuf(events: seq<Event>) returns (n: nat, ok: bool)
      requires Valid()
      modifies this, buffer
      ensures Valid() && n <= |events|
      ensures if buffer.Length == 0 then !ok && n == |events| else ok == (|old(Unread(events))| >= buffer.Length)
      ensures ok ==>
        buffer[..] == old(Unread(events))[..buffer.Length] &&
        Unread(events[n..]) == old(Unread(events))[buffer.Length..] && state == READ
    {
      ghost var stream, taken: seq<byte> := Unread(events), [];
      Setup();
      n, ok := 0, false;
      assert events[0..] == events;
      while !ok
        invariant Valid() && n <= |events|
        invariant if buffer.Length == 0 then !ok else ok == (left == 0)
        invariant buffer.Length > 0 ==> stream == taken + Unread(events[n..]) && Buffered() == taken
        invariant buffer.Length > 0 && ok ==> state == READ
        decreases !ok, |events| - n, if state == READ then 0 else 1, |data|
      {
        if data == [] {
          n, ok := Await(events, n);
          if !ok {
            assert buffer.Length > 0 ==> stream == taken + [];
            return;
          }
        }
        ghost var d, rest := data, Stream(events[n..]);
        assert buffer.Length > 0 ==> stream == taken + (d + rest);
        ghost var k := Min(|d|, left);
        Regroup(taken, d, rest, k);
        ok := BufData();
        taken := taken + d[..k];
        if ok && pos == 0 {
          ok := false;
          if n == |events| {
            return;
          }
          Restart(events[n]);
          n := n + 1;
        }
      }
    }
  }

  /** How a line is missed: a reader takes all of the first callback's data, and the next one starts
      in the second callback. It finds nothing, whatever the second callback brings. */
  method MissedLine(buffer: array<byte>, a: seq<byte>, b: seq<byte>, marker: byte) returns (first: bool, second: bool)
    requires 0 < buffer.Length < 0x1_0000 && marker !in a && marker in b
    modifies buffer
    ensures first && !second
  {
    var line := a + [marker];
    FirstLine(a, [], marker);
    var s := new Socket(buffer, New(line));
    assert s.Unread([]) == line;
    var n;
    n, first := s.ReadTo(marker, []);
    assert s.Unread([]) == s.data == [];
    s.NextCallback(New(b), []);
    assert s.Unread([]) == [];
    n, second := s.ReadTo(marker, []);
  }

  lemma FirstLine(a: seq<byte>, rest: seq<byte>, marker: byte)
    requires marker !in a
    ensures LineLength(a + [marker] + rest, marker) == |a| + 1
  {
    LineAcross(a, [marker] + rest, marker);
    assert a + [marker] + rest == a + ([marker] + rest);
  }
}
