/** The send path of the lwIP raw HTTP server for a file with server-side includes: a scanner that
    stops and goes on with every write the transport takes, shortens or refuses. */
module Httpd {
  import opened Bytes
  import opened Ssi

  /** What tcp_write returns: ERR_OK, ERR_MEM, or another error. */
  datatype Err = OK | MEM | FAILED

  /** The transport. It takes or refuses each write, and reports any buffer sizes, as it likes. */
  class Pcb {
    var accepted: seq<byte>    // all bytes that tcp_write has taken

    constructor ()
      ensures accepted == []
    {
      accepted := [];
    }

    method TcpWrite(data: seq<byte>) returns (err: Err)
      modifies this
      ensures accepted == if err == OK then old(accepted) + data else old(accepted)
    {
      err := *;
      if err == OK {
        accepted := accepted + data;
      }
    }

    method SndBuf() returns (n: u16)
    {
      n := *;
    }

    method Mss() returns (n: u16)
    {
      n := *;
    }

    method QueueFull() returns (b: bool)
    {
      b := *;
    }

    /** http_write: smaller and smaller pieces are tried; n bytes are taken if err is OK. */
    method Write(data: seq<byte>) returns (n: nat, err: Err)
      requires |data| < 0x1_0000
      modifies this
      ensures err == OK ==> n <= |data| && (data != [] ==> n > 0) && accepted == old(accepted) + data[..n]
      ensures err != OK ==> accepted == old(accepted)
    {
      n, err := |data|, OK;
      if n == 0 {
        return;
      }
      while true
        invariant 0 < n <= |data| && accepted == old(accepted)
        decreases n
      {
        err := TcpWrite(data[..n]);
        if err == MEM {
          var space := SndBuf();
          var full := QueueFull();
          if space == 0 || full {
            n := 1;
          } else {
            n := n / 2;
          }
        }
        if err != MEM || n <= 1 {
          return;
        }
      }
    }
  }

  const CRLF_CRLF: seq<byte> := [13, 10, 13, 10]

  /** An empty line at index i, with no NUL byte before it. */
  predicate EmptyLineAt(file: seq<byte>, i: nat) {
    i + 4 <= |file| && file[i..i + 4] == CRLF_CRLF && 0 !in file[..i]
  }

  /** An HTTP/0.9 response starts after the first empty line. */
  method BodyStart(file: seq<byte>) returns (start: nat)
    ensures start <= |file|
    ensures if start == 0 then forall i: nat :: !EmptyLineAt(file, i)
            else start >= 4 && EmptyLineAt(file, start - 4) && forall i: nat :: i < start - 4 ==> !EmptyLineAt(file, i)
  {
    var p := 0;
    while p + 4 <= |file| && file[p] != 0
      invariant 0 <= p <= |file| && 0 !in file[..p]
      invariant forall i: nat :: i < p ==> !EmptyLineAt(file, i)
    {
      if file[p..p + 4] == CRLF_CRLF {
        return p + 4;
      }
      assert file[..p + 1] == file[..p] + [file[p]];
      p := p + 1;
    }
    forall i: nat | i >= p
      ensures !EmptyLineAt(file, i)
    {
      if i + 4 <= |file| {
        NulBefore(file, p, i);
      }
    }
    return 0;
  }

  lemma NulBefore(file: seq<byte>, p: nat, i: nat)
    requires p <= i && i + 4 <= |file| && file[p] == 0
    ensures !EmptyLineAt(file, i)
  {
    if i == p {
      assert file[i..i + 4][0] == 0;
    } else {
      assert file[..i][p] == 0;
    }
  }

  /** What one round of the scanner does: a byte is scanned, or the lead-in ends, or a tag is complete. */
  ghost predicate Round(file: seq<byte>, site: Site, p: nat, sc: Scan, k: nat, p': nat, sc': Scan,
                        insert: Option<seq<byte>>, k': nat) {
    p < |file| && Good(sc) &&
    if sc == InLeadin(5) then p' == p && sc' == InName([]) && insert == None && k' == k
    else
      var (next, name) := Step(sc, file[p]);
      p' == p + 1 && sc' == next &&
      match name
      case None => insert == None && k' == k
      case Some(n) => insert == Some(InsertFor(site, n, k)) && k' == k + 1
  }

  lemma RoundKeeps(file: seq<byte>, site: Site, f: nat, p: nat, sc: Scan, k: nat, p': nat, sc': Scan,
                   insert: Option<seq<byte>>, k': nat)
    requires f <= |file| && Round(file, site, p, sc, k, p', sc', insert, k')
    ensures Good(sc') && p' <= |file|
    ensures Remaining(site, file, f, p, sc, None, k) == Remaining(site, file, f, p', sc', insert, k')
  {
    if sc == InLeadin(5) {
      LeadinEnds(site, file, f, p, k);
    } else if insert == None {
      ScanStep(site, file, f, p, sc, k);
    } else {
      TagStep(site, file, f, p, sc, k);
    }
  }

  datatype TagState = TAG_NONE | TAG_LEADIN | TAG_FOUND | TAG_LEADOUT | TAG_SENDING

  /** struct http_state with its struct http_ssi_state. Pointers into the file are indices. */
  class Response {
    const file: seq<byte>       // handle->data
    const start: nat            // where sending starts
    const site: Site
    const pcb: Pcb
    ghost const whole: seq<byte>   // what the client gets

    var sent: nat               // hs->file
    var left: nat
    var parsed: nat
    var parseLeft: nat
    var tagEnd: nat
    var tagIndex: nat
    var tagName: seq<byte>
    var tagInsert: seq<byte>
    var tagState: TagState
    var calls: nat              // how often the handler has been called
    var closed: bool            // http_eof has been reached

    ghost predicate Fields()
      reads this
    {
      && start <= sent && sent + left == |file| && parsed + parseLeft == |file| && (sent <= parsed || sent == start)
      && (tagState == TAG_LEADIN ==> 1 <= tagIndex <= 5)
      && (tagState == TAG_FOUND ==> tagIndex == |tagName| <= MAX_TAG_NAME_LEN)
      && (tagState == TAG_LEADOUT ==> tagIndex <= 2 && 1 <= |tagName| <= MAX_TAG_NAME_LEN)
      && (tagState == TAG_SENDING ==> tagEnd == parsed && tagIndex <= |tagInsert|)
    }

    ghost function Scanner(): (sc: Scan)
      requires Fields()
      reads this
      ensures Good(sc)
    {
      match tagState
      case TAG_NONE => Idle
      case TAG_LEADIN => InLeadin(tagIndex)
      case TAG_FOUND => InName(tagName)
      case TAG_LEADOUT => InLeadout(tagName, tagIndex)
      case TAG_SENDING => Idle
    }

    /** What is still to be sent. */
    ghost function Rest(): seq<byte>
      requires Fields()
      reads this
    {
      Remaining(site, file, sent, parsed, Scanner(), Pending(), calls)
    }

    /** What is left of the insert that is being sent. */
    ghost function Pending(): Option<seq<byte>>
      requires Fields()
      reads this
    {
      if tagState == TAG_SENDING then Some(tagInsert[tagIndex..]) else None
    }

    ghost predicate Valid()
      reads this, pcb
    {
      && Fields()
      && (if start == |file| then pcb.accepted == whole == [] else pcb.accepted + Rest() == whole)
      && (closed ==> pcb.accepted == whole)
    }

    /** http_init_file. */
    constructor (file: seq<byte>, start: nat, site: Site, pcb: Pcb)
      requires start <= |file| && pcb.accepted == []
      ensures Valid() && this.file == file && this.start == start && this.site == site && this.pcb == pcb && !closed
      ensures whole == Body(site, file, start)
    {
      whole := Body(site, file, start);
      this.file, this.start, this.site, this.pcb := file, start, site, pcb;
      sent, left := start, |file| - start;
      parsed, parseLeft, tagEnd := 0, |file|, 0;
      tagIndex, tagState := 0, TAG_NONE;
      tagName, tagInsert, calls, closed := [], [], 0, false;
    }

    // ----- writing -----

    /** http_write() of the next len bytes of the file, all of them scanned. */
    method WriteFile(len: nat) returns (n: nat, err: Err)
      requires Valid() && !closed && start < |file| && sent + len <= parsed && len < 0x1_0000
      modifies this`sent, this`left, pcb
      ensures Valid()
      ensures err == OK ==> n <= len && (len > 0 ==> n > 0) && sent == old(sent) + n
      ensures err != OK ==> sent == old(sent)
    {
      ghost var f, a, sc, insert := sent, pcb.accepted, Scanner(), Pending();
      n, err := Push(len);
      if err == OK {
        FileProgress(site, file, f, n, parsed, sc, insert, calls, a);
      }
      assert pcb.accepted + Remaining(site, file, sent, parsed, sc, insert, calls) == whole;
    }

    method Push(len: nat) returns (n: nat, err: Err)
      requires len <= left && sent + left == |file| && len < 0x1_0000
      modifies this`sent, this`left, pcb
      ensures sent + left == |file|
      ensures err == OK ==> n <= len && (len > 0 ==> n > 0) && sent == old(sent) + n
      ensures err == OK ==> pcb.accepted == old(pcb.accepted) + file[old(sent)..sent]
      ensures err != OK ==> sent == old(sent) && pcb.accepted == old(pcb.accepted)
    {
      n, err := pcb.Write(file[sent..sent + len]);
      if err == OK {
        assert file[sent..sent + len][..n] == file[sent..sent + n];
        sent := sent + n;
        left := left - n;
      }
    }

    /** How much of the scanned data is to be sent at once. */
    method Portion() returns (len: nat)
      requires parsed > sent
      ensures sent + len <= parsed && len < 0x1_0000
    {
      var space: nat := pcb.SndBuf();
      len := if space < parsed - sent then space else parsed - sent;
      var mss: nat := pcb.Mss();
      if len > 2 * mss {
        len := 2 * mss;
      }
    }

    // ----- scanning -----

    method Next()
      requires parseLeft > 0
      modifies this`parsed, this`parseLeft
      ensures parsed == old(parsed) + 1 && parseLeft == old(parseLeft) - 1
    {
      parseLeft := parseLeft - 1;
      parsed := parsed + 1;
    }

    method ScanNone()
      requires Fields() && tagState == TAG_NONE && parseLeft > 0
      modifies this`parsed, this`parseLeft, this`tagIndex, this`tagState
      ensures Fields() && parsed == old(parsed) + 1 && tagState != TAG_SENDING
      ensures (Scanner(), None) == Step(old(Scanner()), file[old(parsed)])
    {
      if file[parsed] == LEADIN[0] {
        tagState := TAG_LEADIN;
        tagIndex := 1;
      }
      Next();
    }

    /** At the end of the lead-in no byte is consumed. */
    method ScanLeadin()
      requires Fields() && tagState == TAG_LEADIN && parseLeft > 0
      modifies this`parsed, this`parseLeft, this`tagIndex, this`tagState, this`tagName
      ensures Fields() && tagState != TAG_SENDING
      ensures if old(tagIndex) == 5 then tagState == TAG_FOUND && tagName == [] && parsed == old(parsed)
              else parsed == old(parsed) + 1 && (Scanner(), None) == Step(old(Scanner()), file[old(parsed)])
    {
      if tagIndex == 5 {
        tagIndex := 0;
        tagName := [];
        tagState := TAG_FOUND;
      } else {
        if file[parsed] == LEADIN[tagIndex] {
          tagIndex := tagIndex + 1;
        } else {
          tagState := TAG_NONE;
        }
        Next();
      }
    }

    method ScanName()
      requires Fields() && tagState == TAG_FOUND && parseLeft > 0
      modifies this`parsed, this`parseLeft, this`tagIndex, this`tagState, this`tagName
      ensures Fields() && parsed == old(parsed) + 1 && tagState != TAG_SENDING
      ensures (Scanner(), None) == Step(old(Scanner()), file[old(parsed)])
    {
      var c := file[parsed];
      if tagIndex == 0 && Space(c) {
        Next();
        return;
      }
      if c == LEADOUT[0] || Space(c) {
        if tagIndex == 0 {
          tagState := TAG_NONE;
        } else {
          tagState := TAG_LEADOUT;
          tagIndex := if c == LEADOUT[0] then 1 else 0;
        }
      } else if tagIndex < MAX_TAG_NAME_LEN {
        tagName := tagName + [c];
        tagIndex := tagIndex + 1;
      } else {
        tagState := TAG_NONE;
      }
      Next();
    }

    /** get_tag_insert. */
    method GetTagInsert()
      modifies this`tagInsert, this`calls
      ensures tagInsert == InsertFor(site, tagName, old(calls)) && calls == old(calls) + 1
      ensures forall i :: 0 <= i < |site.names| && FirstEqual(site.names, i, CString(tagName)) ==>
        tagInsert == site.handler(i, old(calls))
      ensures CString(tagName) !in site.names ==> tagInsert == UNKNOWN_TAG1 + CString(tagName) + UNKNOWN_TAG2
    {
      calls := calls + 1;
      var name := CString(tagName);
      for loop := 0 to |site.names|
        invariant forall i :: 0 <= i < loop ==> site.names[i] != name
        invariant calls == old(calls) + 1
      {
        if site.names[loop] == name {
          tagInsert := site.handler(loop, calls - 1);
          return;
        }
      }
      tagInsert := UNKNOWN_TAG1 + name + UNKNOWN_TAG2;
    }

    method ScanLeadout()
      requires Fields() && tagState == TAG_LEADOUT && parseLeft > 0
      modifies this`parsed, this`parseLeft, this`tagIndex, this`tagState, this`tagEnd, this`tagInsert, this`calls
      ensures Fields() && parsed == old(parsed) + 1
      ensures (Scanner(), if tagState == TAG_SENDING then Some(tagName) else None) ==
        Step(old(Scanner()), file[old(parsed)])
      ensures if tagState == TAG_SENDING then
          tagIndex == 0 && tagInsert == InsertFor(site, tagName, old(calls)) && calls == old(calls) + 1
              else calls == old(calls)
    {
      var c := file[parsed];
      Next();
      if tagIndex == 0 && Space(c) {
        return;
      }
      if c != LEADOUT[tagIndex] {
        tagState := TAG_NONE;
      } else if tagIndex == 2 {
        GetTagInsert();
        tagIndex := 0;
        tagState := TAG_SENDING;
        tagEnd := parsed;
      } else {
        tagIndex := tagIndex + 1;
      }
    }

    /** One round of the scanner, by state. */
    method ScanRound()
      requires Fields() && tagState != TAG_SENDING && parseLeft > 0
      modifies this`parsed, this`parseLeft, this`tagIndex, this`tagState, this`tagName, this`tagEnd, this`tagInsert,
        this`calls
      ensures Fields()
      ensures Round(file, site, old(parsed), old(Scanner()), old(calls), parsed, Scanner(), Pending(), calls)
      ensures parseLeft < old(parseLeft) ||
        (parseLeft == old(parseLeft) && old(tagState) == TAG_LEADIN && tagState == TAG_FOUND)
    {
      match tagState {
        case TAG_NONE => ScanNone();
        case TAG_LEADIN => ScanLeadin();
        case TAG_FOUND => ScanName();
        case TAG_LEADOUT =>
          ScanLeadout();
          assert tagState == TAG_SENDING ==> tagInsert[tagIndex..] == tagInsert;
      }
    }

    method Scan()
      requires Valid() && !closed && tagState != TAG_SENDING && parseLeft > 0
      modifies this`parsed, this`parseLeft, this`tagIndex, this`tagState, this`tagName, this`tagEnd, this`tagInsert,
        this`calls
      ensures Valid()
      ensures parseLeft < old(parseLeft) ||
        (parseLeft == old(parseLeft) && old(tagState) == TAG_LEADIN && tagState == TAG_FOUND)
    {
      ghost var p, sc, k := parsed, Scanner(), calls;
      ScanRound();
      RoundKeeps(file, site, sent, p, sc, k, parsed, Scanner(), Pending(), calls);
    }

    // ----- the state TAG_SENDING -----

    /** How far the current tag or insert is from being sent. */
    ghost function Unsent(): nat
      reads this
    {
      if tagEnd > sent then tagEnd - sent else 0
    }

    /** Data up to the end of the tag; len bytes at most. */
    method SendBeforeTag(len: nat) returns (n: nat, err: Err)
      requires Valid() && !closed && start < |file| && tagState == TAG_SENDING && tagEnd > sent && 0 < len < 0x1_0000
      modifies this`sent, this`left, pcb
      ensures Valid() && (err == OK ==> 0 < n < 0x1_0000 && Unsent() < old(Unsent()))
    {
      n, err := WriteFile(if len > tagEnd - sent then tagEnd - sent else len);
    }

    /** Part of the insert; len bytes at most. */
    method SendInsert(len: nat) returns (n: nat, err: Err)
      requires Valid() && !closed && start < |file| && tagState == TAG_SENDING && tagEnd <= sent && parseLeft > 0
      requires tagIndex < |tagInsert| && 0 < len < 0x1_0000
      modifies this`tagIndex, pcb
      ensures Valid() && tagIndex <= |tagInsert| && (err == OK ==> 0 < n < 0x1_0000 && tagIndex > old(tagIndex))
    {
      ghost var i, a := tagInsert[tagIndex..], pcb.accepted;
      n, err := PushInsert(len);
      if err == OK {
        InsertProgress(site, file, sent, parsed, i, n, calls, a);
      }
    }

    method PushInsert(len: nat) returns (n: nat, err: Err)
      requires tagIndex < |tagInsert| && 0 < len < 0x1_0000
      modifies this`tagIndex, pcb
      ensures tagIndex <= |tagInsert| && (err == OK ==> 0 < n < 0x1_0000 && tagIndex == old(tagIndex) + n)
      ensures err == OK ==> tagInsert[tagIndex..] == tagInsert[old(tagIndex)..][n..]
      ensures err == OK ==> pcb.accepted == old(pcb.accepted) + tagInsert[old(tagIndex)..][..n]
      ensures err != OK ==> tagIndex == old(tagIndex) && pcb.accepted == old(pcb.accepted)
    {
      var m := if len > |tagInsert| - tagIndex then |tagInsert| - tagIndex else len;
      n, err := pcb.Write(tagInsert[tagIndex..tagIndex + m]);
      if err == OK {
        assert tagInsert[tagIndex..tagIndex + m][..n] == tagInsert[tagIndex..][..n];
        tagIndex := tagIndex + n;
      }
    }

    /** The insert has been sent. */
    method EndInsert()
      requires Valid() && !closed && tagState == TAG_SENDING && tagEnd <= sent && parseLeft > 0 &&
        tagIndex == |tagInsert|
      modifies this`tagIndex, this`tagState
      ensures Valid() && tagState == TAG_NONE
    {
      InsertStep(site, file, sent, parsed, [], 0, calls);
      assert tagInsert[tagIndex..] == [];
      tagIndex := 0;
      tagState := TAG_NONE;
    }

    /** One round in state TAG_SENDING. */
    method SendTag(len: nat) returns (n: nat, err: Err, wrote: bool)
      requires Valid() && !closed && start < |file| && tagState == TAG_SENDING && parseLeft > 0 && 0 < len < 0x1_0000
      modifies this`sent, this`left, this`tagIndex, this`tagState, pcb
      ensures Valid()
      ensures err == OK ==> n < 0x1_0000
      ensures err == OK && tagState != TAG_NONE ==> tagState == TAG_SENDING
      ensures err == OK && tagState != TAG_NONE ==>
        Unsent() < old(Unsent()) || (Unsent() == old(Unsent()) && tagIndex > old(tagIndex))
    {
      n, err, wrote := len, OK, false;
      if tagEnd > sent {
        n, err := SendBeforeTag(len);
        wrote := err == OK;
      } else if tagIndex < |tagInsert| {
        n, err := SendInsert(len);
        wrote := err == OK;
      } else {
        EndInsert();
      }
    }

    // ----- sending -----

    /** The loop of http_send_data_ssi, which may send len bytes at a time. */
    method ScanAndSend(len0: nat, err0: Err) returns (full: bool, wrote: bool)
      requires Valid() && !closed && start < |file| && len0 < 0x1_0000
      modifies this, pcb
      ensures Valid() && !closed
      ensures !full ==> sent <= parsed || tagState == TAG_SENDING || sent == start
    {
      var len, err := len0, err0;
      full, wrote := false, false;
      while parseLeft > 0 && err == OK
        invariant Valid() && !closed && (err == OK ==> len < 0x1_0000)
        decreases err == OK, parseLeft, if tagState == TAG_LEADIN || tagState == TAG_SENDING then 1 else 0,
                  Unsent(), if tagState == TAG_SENDING then |tagInsert| - tagIndex else 0
      {
        if len == 0 {
          return true, wrote;
        }
        if tagState == TAG_SENDING {
          var w;
          len, err, w := SendTag(len);
          wrote := wrote || w;
        } else {
          Scan();
          if tagState == TAG_SENDING && tagEnd > sent {
            len, err := SendBeforeTag(len);
            wrote := wrote || err == OK;
          }
        }
      }
    }

    /** http_send_data_ssi. */
    method SendDataSsi() returns (wrote: bool)
      requires Valid() && !closed && start < |file|
      modifies this, pcb
      ensures Valid() && !closed
    {
      var err := OK;
      wrote := false;
      var len: nat := pcb.SndBuf();
      if parsed > sent {
        len := Portion();
        len, err := WriteFile(len);
        wrote := err == OK;
        var space := pcb.SndBuf();
        if space == 0 {
          return;
        }
      }
      var full, w := ScanAndSend(if err == OK then len else 0, err);
      wrote := wrote || w;
      if !full && tagState != TAG_SENDING && parsed > sent {
        len := Portion();
        len, err := WriteFile(len);
        wrote := wrote || err == OK;
      }
    }

    /** http_send, called whenever the transport may take more. Whatever it takes, what it has taken is
        the beginning of what the client should get, and when the connection is closed it is all of it. */
    method Send() returns (wrote: bool)
      requires Valid() && !closed
      modifies this, pcb
      ensures Valid() && pcb.accepted <= whole
      ensures closed ==> pcb.accepted == whole
    {
      wrote := false;
      if left > 0 {
        wrote := SendDataSsi();
      }
      if left == 0 {
        if start < |file| {
          NothingRemains(site, file, Scanner(), Pending(), calls);
        }
        closed := true;
        wrote := false;
      }
    }
  }
}
