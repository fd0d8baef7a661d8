/** Server-side includes of the lwIP HTTP server: which tags a file contains, and what is sent for it. */
module Ssi {
  import opened Bytes

  const MAX_TAG_NAME_LEN: nat := 8
  const LEADIN: seq<byte> := [60, 33, 45, 45, 35]    // <!--#
  const LEADOUT: seq<byte> := [45, 45, 62]           // -->

  predicate Space(c: byte) {
    c == 32 || c == 9 || c == 10 || c == 13
  }

  // ----- the scanner -----

  /** How far the scanner is inside a possible tag. */
  datatype Scan = Idle | InLeadin(k: nat) | InName(name: seq<byte>) | InLeadout(name: seq<byte>, k: nat)

  predicate Good(sc: Scan) {
    match sc
    case Idle => true
    case InLeadin(k) => 1 <= k <= 5
    case InName(name) => |name| <= MAX_TAG_NAME_LEN
    case InLeadout(name, k) => 1 <= |name| <= MAX_TAG_NAME_LEN && k <= 2
  }

  /** One byte: the scanner's next state, and the name of the tag it completes. */
  function Step(sc: Scan, c: byte): (r: (Scan, Option<seq<byte>>))
    requires Good(sc)
    ensures Good(r.0) && (r.1.Some? ==> 1 <= |r.1.value| <= MAX_TAG_NAME_LEN)
  {
    match sc
    case Idle => (if c == LEADIN[0] then InLeadin(1) else Idle, None)
    case InLeadin(k) =>
      if k == 5 then (StepName([], c), None)
      else (if c == LEADIN[k] then InLeadin(k + 1) else Idle, None)
    case InName(name) => (StepName(name, c), None)
    case InLeadout(name, k) =>
      if k == 0 && Space(c) then (sc, None)
      else if c != LEADOUT[k] then (Idle, None)
      else if k == 2 then (Idle, Some(name))
      else (InLeadout(name, k + 1), None)
  }

  function StepName(name: seq<byte>, c: byte): (r: Scan)
    requires |name| <= MAX_TAG_NAME_LEN
    ensures Good(r)
  {
    if name == [] && Space(c) then InName([])
    else if c == LEADOUT[0] || Space(c) then
      if name == [] then Idle else InLeadout(name, if c == LEADOUT[0] then 1 else 0)
    else if |name| < MAX_TAG_NAME_LEN then InName(name + [c])
    else Idle
  }

  /** The state of the scanner that has read the first p bytes. */
  function After(s: seq<byte>, p: nat): (sc: Scan)
    requires p <= |s|
    ensures Good(sc)
  {
    if p == 0 then Idle else Step(After(s, p - 1), s[p - 1]).0
  }

  /** A tag found: its name, and the index of the byte after it. */
  datatype Tag = Tag(name: seq<byte>, end: nat)

  /** The tags completed by the bytes of s from p on. */
  function Tags(s: seq<byte>, p: nat, sc: Scan): seq<Tag>
    requires p <= |s| && Good(sc)
    decreases |s| - p
  {
    if p == |s| then []
    else
      var (sc', name) := Step(sc, s[p]);
      if name.Some? then [Tag(name.value, p + 1)] + Tags(s, p + 1, sc') else Tags(s, p + 1, sc')
  }

  /** The ends of the tags increase, from beyond p. */
  predicate Ordered(tags: seq<Tag>, p: nat, size: nat) {
    && (forall i :: 0 <= i < |tags| ==> p < tags[i].end <= size)
    && (forall i, j :: 0 <= i < j < |tags| ==> tags[i].end < tags[j].end)
  }

  lemma {:induction false} TagsOrdered(s: seq<byte>, p: nat, sc: Scan)
    requires p <= |s| && Good(sc)
    ensures Ordered(Tags(s, p, sc), p, |s|)
    decreases |s| - p
  {
    if p < |s| {
      TagsOrdered(s, p + 1, Step(sc, s[p]).0);
    }
  }

  // ----- what a tag is -----

  predicate Spaces(w: seq<byte>) {
    forall c <- w :: Space(c)
  }

  predicate TagName(name: seq<byte>) {
    1 <= |name| <= MAX_TAG_NAME_LEN && forall c <- name :: !Space(c) && c != LEADOUT[0]
  }

  /** The longest name has eight bytes. */
  lemma LongestName(name: seq<byte>)
    requires forall c <- name :: c == 120
    ensures TagName(name) <==> 1 <= |name| <= 8
  {
  }

  /** From i up to m lie a lead-in, white space up to n, and a name. */
  ghost predicate Opening(s: seq<byte>, i: nat, n: nat, m: nat, name: seq<byte>) {
    && i + 5 <= n <= m <= |s|
    && s[i..i + 5] == LEADIN && Spaces(s[i + 5..n]) && s[n..m] == name
  }

  /** From m up to e lie white space up to o, and the first k bytes of a lead-out. */
  ghost predicate Closing(s: seq<byte>, m: nat, o: nat, e: nat, k: nat) {
    m <= o <= e <= |s| && k <= 3 && Spaces(s[m..o]) && s[o..e] == LEADOUT[..k]
  }

  /** A tag starts at i and ends at e. */
  ghost predicate IsTag(s: seq<byte>, i: nat, name: seq<byte>, e: nat) {
    TagName(name) && exists n: nat, m: nat, o: nat :: Opening(s, i, n, m, name) && Closing(s, m, o, e, 3)
  }

  /** A tag that starts where the scanner is idle. */
  ghost predicate IdleTag(s: seq<byte>, i: nat, name: seq<byte>, e: nat) {
    i <= |s| && After(s, i) == Idle && IsTag(s, i, name, e)
  }

  ghost predicate TagEnds(s: seq<byte>, name: seq<byte>, e: nat) {
    exists i: nat :: IdleTag(s, i, name, e)
  }

  /** Where the scanner is idle. */
  ghost function IdleAt(s: seq<byte>): set<nat> {
    set p: nat | p <= |s| && After(s, p) == Idle
  }

  /** What the state of the scanner says about the bytes before p; `idle` is where it has been idle. */
  ghost predicate Means(s: seq<byte>, p: nat, sc: Scan, idle: set<nat>)
    requires p <= |s| && Good(sc)
  {
    match sc
    case Idle => p in idle
    case InLeadin(k) => k <= p && s[p - k..p] == LEADIN[..k] && p - k in idle
    case InName(name) => NameAt(s, p, name, idle)
    case InLeadout(name, k) => exists m: nat, o: nat :: NameAt(s, m, name, idle) && Closing(s, m, o, p, k)
  }

  ghost predicate NameAt(s: seq<byte>, m: nat, name: seq<byte>, idle: set<nat>) {
    && (forall c <- name :: !Space(c) && c != LEADOUT[0])
    && exists i: nat, n: nat :: Opening(s, i, n, m, name) && i in idle
  }

  lemma {:induction false} ScanMeans(s: seq<byte>, p: nat)
    requires p <= |s|
    ensures Means(s, p, After(s, p), IdleAt(s))
  {
    if p > 0 && After(s, p) != Idle {
      ScanMeans(s, p - 1);
      StepMeans(s, p - 1, After(s, p - 1), IdleAt(s));
    }
  }

  /** The byte before e completes a tag of that name. */
  predicate Reported(s: seq<byte>, name: seq<byte>, e: nat) {
    0 < e <= |s| && Step(After(s, e - 1), s[e - 1]).1 == Some(name)
  }

  lemma {:induction false} TagsReported(s: seq<byte>, p: nat, t: Tag)
    requires p <= |s|
    ensures t in Tags(s, p, After(s, p)) <==> p < t.end && Reported(s, t.name, t.end)
    decreases |s| - p
  {
    if p < |s| {
      FirstReported(s, p, t);
      TagsReported(s, p + 1, t);
    }
  }

  lemma FirstReported(s: seq<byte>, p: nat, t: Tag)
    requires p < |s|
    ensures t in Tags(s, p, After(s, p)) <==>
      (t.end == p + 1 && Reported(s, t.name, t.end)) || t in Tags(s, p + 1, After(s, p + 1))
  {
    TagsStep(s, p, After(s, p));
  }

  /** The scanner finds exactly the tags that start where it is idle. */
  lemma FoundExactly(s: seq<byte>, t: Tag)
    ensures t in Tags(s, 0, Idle) <==> TagEnds(s, t.name, t.end)
  {
    TagsReported(s, 0, t);
    if Reported(s, t.name, t.end) {
      ReportedIsTag(s, t.name, t.end);
    }
    if TagEnds(s, t.name, t.end) {
      TagIsReported(s, t.name, t.end);
    }
  }

  lemma ReportedIsTag(s: seq<byte>, name: seq<byte>, e: nat)
    requires Reported(s, name, e)
    ensures TagEnds(s, name, e)
  {
    ScanMeans(s, e - 1);
    StepMeans(s, e - 1, After(s, e - 1), IdleAt(s));
    var i: nat :| i in IdleAt(s) && IsTag(s, i, name, e);
    assert IdleTag(s, i, name, e);
  }

  lemma TagIsReported(s: seq<byte>, name: seq<byte>, e: nat)
    requires TagEnds(s, name, e)
    ensures e > 0 && Reported(s, name, e)
  {
    var i: nat :| IdleTag(s, i, name, e);
    TagIsFound(s, i, name, e);
    assert Tag(name, e) in [Tag(name, e)] + Tags(s, e, Idle);
    TagsReported(s, i, Tag(name, e));
  }

  /** A tag is reported exactly if the scanner that has read everything before it is idle. */
  lemma ReportedIffIdle(s: seq<byte>, i: nat, name: seq<byte>, e: nat)
    requires IsTag(s, i, name, e)
    ensures Tag(name, e) in Tags(s, 0, Idle) <==> After(s, i) == Idle
  {
    FoundExactly(s, Tag(name, e));
    if TagEnds(s, name, e) {
      var j: nat :| IdleTag(s, j, name, e);
      if i < j {
        OneStart(s, i, name, j, name, e);
      } else if j < i {
        OneStart(s, j, name, i, name, e);
      }
    } else {
      assert !IdleTag(s, i, name, e);
    }
  }

  /** No two tags end at the same place. */
  lemma OneStart(s: seq<byte>, i: nat, name: seq<byte>, j: nat, name': seq<byte>, e: nat)
    requires IsTag(s, i, name, e) && IsTag(s, j, name', e)
    ensures i >= j
  {
    var n: nat, m: nat, o: nat :| Opening(s, i, n, m, name) && Closing(s, m, o, e, 3);
    var n': nat, m': nat, o': nat :| Opening(s, j, n', m', name') && Closing(s, m', o', e, 3);
    assert o == o';
    LeadinOnce(s, i, j);
    if j >= i + 5 {
      NoDashInside(s, i, n, m, o, name, j + 2);
    }
    assert s[j..j + 5][0] == s[j] && s[j..j + 5][2] == s[j + 2];
  }

  lemma LeadinOnce(s: seq<byte>, i: nat, j: nat)
    requires i + 5 <= |s| && s[i..i + 5] == LEADIN
    ensures i < j < i + 5 ==> s[j] != LEADIN[0]
  {
    if i < j < i + 5 {
      assert s[j] == s[i..i + 5][j - i];
    }
  }

  lemma NoDashInside(s: seq<byte>, i: nat, n: nat, m: nat, o: nat, name: seq<byte>, p: nat)
    requires Opening(s, i, n, m, name) && TagName(name) && m <= o <= |s| && Spaces(s[m..o]) && i + 5 <= p < o
    ensures s[p] != LEADOUT[0]
  {
    if p < n {
      assert s[p] in s[i + 5..n];
    } else if p < m {
      assert s[p] in s[n..m];
    } else {
      assert s[p] in s[m..o];
    }
  }

  lemma StepMeans(s: seq<byte>, p: nat, sc: Scan, idle: set<nat>)
    requires p < |s| && Good(sc) && Means(s, p, sc, idle)
    ensures var (next, name) := Step(sc, s[p]);
      && (next != Idle ==> Means(s, p + 1, next, idle))
      && (name.Some? ==> exists i: nat :: i in idle && IsTag(s, i, name.value, p + 1))
  {
    match sc
    case Idle => assert s[p..p + 1] == [s[p]];
    case InLeadin(k) =>
      if k == 5 {
        assert Opening(s, p - 5, p, p, []);
        NameMeans(s, p, [], idle);
      } else {
        assert s[p - k..p + 1] == s[p - k..p] + [s[p]];
      }
    case InName(name) => NameMeans(s, p, name, idle);
    case InLeadout(name, k) => LeadoutMeans(s, p, name, k, idle);
  }

  lemma OneMore(s: seq<byte>, a: nat, p: nat)
    requires a <= p < |s|
    ensures s[a..p + 1] == s[a..p] + [s[p]]
  {
  }

  lemma NameMeans(s: seq<byte>, p: nat, name: seq<byte>, idle: set<nat>)
    requires p < |s| && |name| <= MAX_TAG_NAME_LEN && NameAt(s, p, name, idle)
    ensures var next := StepName(name, s[p]); next != Idle ==> Means(s, p + 1, next, idle)
  {
    var c := s[p];
    var i: nat, n: nat :| Opening(s, i, n, p, name) && i in idle;
    if name == [] && Space(c) {
      OneMore(s, i + 5, p);
      assert Opening(s, i, p + 1, p + 1, []);
    } else if c == LEADOUT[0] {
      assert s[p..p + 1] == LEADOUT[..1];
      assert Closing(s, p, p, p + 1, 1);
    } else if Space(c) {
      assert Closing(s, p, p + 1, p + 1, 0);
    } else if |name| < MAX_TAG_NAME_LEN {
      assert s[n..p + 1] == name + [c];
      assert Opening(s, i, n, p + 1, name + [c]);
    }
  }

  lemma LeadoutMeans(s: seq<byte>, p: nat, name: seq<byte>, k: nat, idle: set<nat>)
    requires p < |s| && Good(InLeadout(name, k)) && Means(s, p, InLeadout(name, k), idle)
    ensures var (next, t) := Step(InLeadout(name, k), s[p]);
      && (next != Idle ==> Means(s, p + 1, next, idle))
      && (t.Some? ==> exists i: nat :: i in idle && IsTag(s, i, t.value, p + 1))
  {
    var c := s[p];
    var m: nat, o: nat :| NameAt(s, m, name, idle) && Closing(s, m, o, p, k);
    if k == 0 && Space(c) {
      OneMore(s, m, p);
      assert Closing(s, m, p + 1, p + 1, 0);
    } else if c == LEADOUT[k] {
      OneMore(s, o, p);
      assert Closing(s, m, o, p + 1, k + 1);
      if k == 2 {
        var i: nat, n: nat :| Opening(s, i, n, m, name) && i in idle;
        assert IsTag(s, i, name, p + 1);
      }
    }
  }

  /** A tag that begins where the scanner is idle is reported, with its name and end. */
  lemma TagIsFound(s: seq<byte>, i: nat, name: seq<byte>, e: nat)
    requires IsTag(s, i, name, e)
    ensures Tags(s, i, Idle) == [Tag(name, e)] + Tags(s, e, Idle)
  {
    var n: nat, m: nat, o: nat :| Opening(s, i, n, m, name) && Closing(s, m, o, e, 3);
    RunLeadin(s, i);
    RunSpaces(s, i + 5, n);
    RunName(s, n, m, []);
    assert [] + s[n..m] == name;
    RunLeadout(s, m, o, name);
  }

  lemma TagsStep(s: seq<byte>, p: nat, sc: Scan)
    requires p < |s| && Good(sc)
    ensures var (sc', name) := Step(sc, s[p]);
      Tags(s, p, sc) == if name.Some? then [Tag(name.value, p + 1)] + Tags(s, p + 1, sc') else Tags(s, p + 1, sc')
  {
  }

  lemma RunLeadin(s: seq<byte>, i: nat)
    requires i + 5 <= |s| && s[i..i + 5] == LEADIN
    ensures Tags(s, i, Idle) == Tags(s, i + 5, InName([]))
  {
    var t := s[i..i + 5];
    assert s[i] == t[0] && s[i + 1] == t[1] && s[i + 2] == t[2] && s[i + 3] == t[3] && s[i + 4] == t[4];
    TagsStep(s, i, Idle);
    TagsStep(s, i + 1, InLeadin(1));
    TagsStep(s, i + 2, InLeadin(2));
    TagsStep(s, i + 3, InLeadin(3));
    TagsStep(s, i + 4, InLeadin(4));
    LeadinDone(s, i + 5);
  }

  lemma LeadinDone(s: seq<byte>, p: nat)
    requires p <= |s|
    ensures Tags(s, p, InLeadin(5)) == Tags(s, p, InName([]))
  {
  }

  lemma {:induction false} RunSpaces(s: seq<byte>, j: nat, n: nat)
    requires j <= n <= |s| && Spaces(s[j..n])
    ensures Tags(s, j, InName([])) == Tags(s, n, InName([]))
    decreases n - j
  {
    if j < n {
      assert s[j..n][0] == s[j] && s[j..n][1..] == s[j + 1..n];
      RunSpaces(s, j + 1, n);
    }
  }

  lemma {:induction false} RunName(s: seq<byte>, n: nat, m: nat, done: seq<byte>)
    requires n <= m <= |s| && |done| + m - n <= MAX_TAG_NAME_LEN
    requires forall c <- s[n..m] :: !Space(c) && c != LEADOUT[0]
    ensures Tags(s, n, InName(done)) == Tags(s, m, InName(done + s[n..m]))
    decreases m - n
  {
    if n < m {
      assert s[n] in s[n..m];
      TagsStep(s, n, InName(done));
      RunName(s, n + 1, m, done + [s[n]]);
      assert done + s[n..m] == done + [s[n]] + s[n + 1..m];
    } else {
      assert done + s[n..m] == done;
    }
  }

  lemma RunLeadout(s: seq<byte>, m: nat, o: nat, name: seq<byte>)
    requires Closing(s, m, o, o + 3, 3) && TagName(name)
    ensures Tags(s, m, InName(name)) == [Tag(name, o + 3)] + Tags(s, o + 3, Idle)
  {
    var t := s[o..o + 3];
    assert s[o] == t[0] && s[o + 1] == t[1] && s[o + 2] == t[2];
    TagsStep(s, m, InName(name));
    if m < o {
      assert s[m..o][0] == s[m] && s[m..o][1..] == s[m + 1..o];
      RunSpaces2(s, m + 1, o, name);
      TagsStep(s, o, InLeadout(name, 0));
    }
    TagsStep(s, o + 1, InLeadout(name, 1));
    TagsStep(s, o + 2, InLeadout(name, 2));
  }

  lemma {:induction false} RunSpaces2(s: seq<byte>, j: nat, n: nat, name: seq<byte>)
    requires j <= n <= |s| && Spaces(s[j..n]) && 1 <= |name| <= MAX_TAG_NAME_LEN
    ensures Tags(s, j, InLeadout(name, 0)) == Tags(s, n, InLeadout(name, 0))
    decreases n - j
  {
    if j < n {
      assert s[j..n][0] == s[j] && s[j..n][1..] == s[j + 1..n];
      RunSpaces2(s, j + 1, n, name);
    }
  }

  /** A tag right after a stray '<' is missed: the scanner has taken that for the start of a tag. */
  lemma StrayLessThan(s: seq<byte>, i: nat, name: seq<byte>, e: nat)
    requires 0 < i && IsTag(s, i, name, e) && s[i - 1] == LEADIN[0] && After(s, i - 1) == Idle
    ensures Tag(name, e) !in Tags(s, 0, Idle)
  {
    ReportedIffIdle(s, i, name, e);
  }

  /** The tag <!--#x--> is missed in <<!--#x-->. */
  lemma MissedTag(s: seq<byte>)
    requires s == [60, 60, 33, 45, 45, 35, 120, 45, 45, 62]
    ensures IsTag(s, 1, [120], 10) && Tag([120], 10) !in Tags(s, 0, Idle)
  {
    assert Opening(s, 1, 6, 7, [120]) by {
      assert s[1..6] == LEADIN && s[6..6] == [] && s[6..7] == [120];
    }
    assert Closing(s, 7, 7, 10, 3) by {
      assert s[7..7] == [] && s[7..10] == LEADOUT && LEADOUT[..3] == LEADOUT;
    }
    assert IsTag(s, 1, [120], 10);
    StrayLessThan(s, 1, [120], 10);
  }

  // ----- inserts -----

  /** The names with a handler, and the handler: the text for name i at the k-th call. */
  datatype Site = Site(names: seq<seq<byte>>, handler: (nat, nat) -> seq<byte>)

  /** A name as a C string. */
  function CString(name: seq<byte>): (r: seq<byte>)
    ensures |r| <= |name|
  {
    if name == [] || name[0] == 0 then [] else [name[0]] + CString(name[1..])
  }

  function NameIndex(names: seq<seq<byte>>, name: seq<byte>): (i: nat)
    ensures i <= |names| && (i < |names| ==> names[i] == name) && forall j :: 0 <= j < i ==> names[j] != name
  {
    if names == [] || names[0] == name then 0 else 1 + NameIndex(names[1..], name)
  }

  // <b>***UNKNOWN TAG_ and ***</b>
  const UNKNOWN_TAG1: seq<byte> := [60, 98, 62, 42, 42, 42, 85, 78, 75, 78, 79, 87, 78, 32, 84, 65, 71, 32]
  const UNKNOWN_TAG2: seq<byte> := [42, 42, 42, 60, 47, 98, 62]

  function InsertFor(site: Site, name: seq<byte>, k: nat): seq<byte> {
    var i := NameIndex(site.names, CString(name));
    if i < |site.names| then site.handler(i, k) else UNKNOWN_TAG1 + CString(name) + UNKNOWN_TAG2
  }

  /** The name that is looked up ends before the first zero byte. */
  lemma {:induction false} CStringIs(name: seq<byte>, n: nat)
    requires n <= |name| && 0 !in name[..n] && (n == |name| || name[n] == 0)
    ensures CString(name) == name[..n]
    decreases n
  {
    if n > 0 {
      assert name[0] == name[..n][0] && name[..n][1..] == name[1..][..n - 1];
      CStringIs(name[1..], n - 1);
      assert name[..n] == [name[0]] + name[1..][..n - 1];
    }
  }

  /** The text for a tag is what the handler gives for the first name equal to it, or an error marker that
      repeats it: <b>***UNKNOWN TAG name***</b>. */
  lemma InsertIs(site: Site, name: seq<byte>, n: nat, k: nat)
    requires n <= |name| && 0 !in name[..n] && (n == |name| || name[n] == 0)
    ensures forall i :: 0 <= i < |site.names| && FirstEqual(site.names, i, name[..n]) ==>
      InsertFor(site, name, k) == site.handler(i, k)
    ensures name[..n] !in site.names ==>
      InsertFor(site, name, k) ==
        [60, 98, 62, 42, 42, 42, 85, 78, 75, 78, 79, 87, 78, 32, 84, 65, 71, 32] + name[..n] +
          [42, 42, 42, 60, 47, 98, 62]
  {
    CStringIs(name, n);
    var i := NameIndex(site.names, name[..n]);
    assert i < |site.names| ==> FirstEqual(site.names, i, name[..n]);
  }

  predicate FirstEqual(names: seq<seq<byte>>, i: nat, name: seq<byte>)
    requires i < |names|
  {
    names[i] == name && forall j :: 0 <= j < i ==> names[j] != name
  }

  // ----- what is sent -----

  function Max(a: nat, b: nat): nat {
    if a < b then b else a
  }

  /** The file from f on, with each insert right after its tag. */
  function Expansion(site: Site, s: seq<byte>, f: nat, tags: seq<Tag>, k: nat): seq<byte>
    requires f <= |s| && Ordered(tags, 0, |s|)
    decreases |tags|
  {
    if tags == [] then s[f..]
    else
      s[f..Max(f, tags[0].end)] + InsertFor(site, tags[0].name, k) +
        Expansion(site, s, Max(f, tags[0].end), tags[1..], k + 1)
  }

  /** What the server sends: an insert due at the very end of the file is not. */
  function Sent(site: Site, s: seq<byte>, f: nat, tags: seq<Tag>, k: nat): seq<byte>
    requires f <= |s| && Ordered(tags, 0, |s|)
    decreases |tags|
  {
    if tags == [] || tags[0].end == |s| then s[f..]
    else
      s[f..Max(f, tags[0].end)] + InsertFor(site, tags[0].name, k) +
        Sent(site, s, Max(f, tags[0].end), tags[1..], k + 1)
  }

  /** The server sends the expansion exactly if no nonempty insert is due at the very end of the file. */
  lemma {:induction false} SentIsExpansion(site: Site, s: seq<byte>, f: nat, tags: seq<Tag>, k: nat)
    requires f <= |s| && Ordered(tags, 0, |s|)
    ensures Sent(site, s, f, tags, k) == Expansion(site, s, f, tags, k) <==>
      tags == [] || tags[|tags| - 1].end < |s| || InsertFor(site, tags[|tags| - 1].name, k + |tags| - 1) == []
    decreases |tags|
  {
    if tags == [] {
    } else if |tags| == 1 && tags[0].end == |s| {
      assert tags == [tags[0]];
      AtTheEnd(site, s, f, tags[0], k);
    } else {
      if |tags| > 1 {
        assert tags[0].end < tags[1].end;
      }
      SentIsExpansion(site, s, Max(f, tags[0].end), tags[1..], k + 1);
      SameAfter(site, s, f, tags, k);
    }
  }

  lemma SameAfter(site: Site, s: seq<byte>, f: nat, tags: seq<Tag>, k: nat)
    requires f <= |s| && Ordered(tags, 0, |s|) && tags != [] && tags[0].end < |s|
    ensures var f' := Max(f, tags[0].end);
      Sent(site, s, f, tags, k) == Expansion(site, s, f, tags, k) <==>
      Sent(site, s, f', tags[1..], k + 1) == Expansion(site, s, f', tags[1..], k + 1)
  {
    var f' := Max(f, tags[0].end);
    PrefixCancels(s[f..f'] + InsertFor(site, tags[0].name, k), Sent(site, s, f', tags[1..], k + 1),
                  Expansion(site, s, f', tags[1..], k + 1));
  }

  lemma AtTheEnd(site: Site, s: seq<byte>, f: nat, t: Tag, k: nat)
    requires f <= |s| && t.end == |s| > 0
    ensures Expansion(site, s, f, [t], k) == s[f..] + InsertFor(site, t.name, k)
    ensures Expansion(site, s, f, [t], k) == Sent(site, s, f, [t], k) <==> InsertFor(site, t.name, k) == []
  {
    var insert := InsertFor(site, t.name, k);
    assert s[f..Max(f, |s|)] == s[f..] && s[Max(f, |s|)..] == [];
    assert Expansion(site, s, |s|, [], k + 1) == [];
    assert s[f..] + insert + [] == s[f..] + insert;
    assert s[f..] + [] == s[f..];
    PrefixCancels(s[f..], insert, []);
  }

  lemma PrefixCancels(a: seq<byte>, b: seq<byte>, c: seq<byte>)
    ensures a + b == a + c <==> b == c
  {
    assert (a + b)[|a|..] == b && (a + c)[|a|..] == c;
  }

  /** What is still to be sent when the file is sent up to f and scanned up to p. While an insert is
      being sent, `insert` is what is left of it. */
  function Remaining(site: Site, s: seq<byte>, f: nat, p: nat, sc: Scan, insert: Option<seq<byte>>, k: nat): seq<byte>
    requires f <= |s| && p <= |s| && Good(sc)
  {
    TagsOrdered(s, p, sc);
    TagsOrdered(s, p, Idle);
    if insert == None then Sent(site, s, f, Tags(s, p, sc), k)
    else if p < |s| then s[f..Max(f, p)] + insert.value + Sent(site, s, Max(f, p), Tags(s, p, Idle), k)
    else s[f..]
  }

  /** The response for a file sent from `start` on. */
  function Body(site: Site, s: seq<byte>, start: nat): seq<byte>
    requires start <= |s|
  {
    if start == |s| then [] else Remaining(site, s, start, 0, Idle, None, 0)
  }

  /** Sending file data that has been scanned. */
  lemma FileStep(site: Site, s: seq<byte>, f: nat, n: nat, p: nat, sc: Scan, insert: Option<seq<byte>>, k: nat)
    requires f + n <= p <= |s| && Good(sc)
    ensures Remaining(site, s, f, p, sc, insert, k) == s[f..f + n] + Remaining(site, s, f + n, p, sc, insert, k)
  {
    if insert == None {
      TagsOrdered(s, p, sc);
      SentStep(site, s, f, n, Tags(s, p, sc), k);
    } else if p < |s| {
      CutOnce(s, f, f + n, p);
    } else {
      CutOnce(s, f, f + n, |s|);
    }
  }

  lemma CutOnce(s: seq<byte>, f: nat, g: nat, p: nat)
    requires f <= g <= p <= |s|
    ensures s[f..p] == s[f..g] + s[g..p] && s[f..|s|] == s[f..]
  {
  }

  lemma SentStep(site: Site, s: seq<byte>, f: nat, n: nat, tags: seq<Tag>, k: nat)
    requires f + n <= |s| && Ordered(tags, 0, |s|) && (tags == [] || f + n <= tags[0].end)
    ensures Sent(site, s, f, tags, k) == s[f..f + n] + Sent(site, s, f + n, tags, k)
  {
    if tags == [] || tags[0].end == |s| {
      CutOnce(s, f, f + n, |s|);
    } else {
      CutOnce(s, f, f + n, tags[0].end);
    }
  }

  lemma Progress(a: seq<byte>, x: seq<byte>, r: seq<byte>)
    ensures a + (x + r) == (a + x) + r
  {
  }

  /** With a sent before, the n bytes make progress towards the same whole. */
  lemma FileProgress(site: Site, s: seq<byte>, f: nat, n: nat, p: nat, sc: Scan, insert: Option<seq<byte>>, k: nat,
                     a: seq<byte>)
    requires f + n <= p <= |s| && Good(sc)
    ensures a + Remaining(site, s, f, p, sc, insert, k) == (a + s[f..f + n]) +
      Remaining(site, s, f + n, p, sc, insert, k)
  {
    FileStep(site, s, f, n, p, sc, insert, k);
    Progress(a, s[f..f + n], Remaining(site, s, f + n, p, sc, insert, k));
  }

  /** Scanning a byte that completes no tag. */
  lemma ScanStep(site: Site, s: seq<byte>, f: nat, p: nat, sc: Scan, k: nat)
    requires f <= |s| && p < |s| && Good(sc) && Step(sc, s[p]).1 == None
    ensures Remaining(site, s, f, p, sc, None, k) == Remaining(site, s, f, p + 1, Step(sc, s[p]).0, None, k)
  {
    assert Tags(s, p, sc) == Tags(s, p + 1, Step(sc, s[p]).0);
  }

  /** The end of the lead-in: the name follows. */
  lemma LeadinEnds(site: Site, s: seq<byte>, f: nat, p: nat, k: nat)
    requires f <= |s| && p <= |s|
    ensures Remaining(site, s, f, p, InLeadin(5), None, k) == Remaining(site, s, f, p, InName([]), None, k)
  {
    LeadinDone(s, p);
  }

  /** Scanning the last byte of a tag. */
  lemma TagStep(site: Site, s: seq<byte>, f: nat, p: nat, sc: Scan, k: nat)
    requires f <= |s| && p < |s| && Good(sc) && Step(sc, s[p]).1.Some?
    ensures Remaining(site, s, f, p, sc, None, k) ==
      Remaining(site, s, f, p + 1, Idle, Some(InsertFor(site, Step(sc, s[p]).1.value, k)), k + 1)
  {
    var name := Step(sc, s[p]).1.value;
    TagsOrdered(s, p, sc);
    TagsOrdered(s, p + 1, Idle);
    assert Tags(s, p, sc) == [Tag(name, p + 1)] + Tags(s, p + 1, Idle);
    assert Tags(s, p, sc)[1..] == Tags(s, p + 1, Idle);
  }

  /** Sending part of an insert. */
  lemma InsertStep(site: Site, s: seq<byte>, f: nat, p: nat, insert: seq<byte>, n: nat, k: nat)
    requires p <= f <= |s| && p < |s| && n <= |insert|
    ensures Remaining(site, s, f, p, Idle, Some(insert), k) == insert[..n] +
      Remaining(site, s, f, p, Idle, Some(insert[n..]), k)
    ensures Remaining(site, s, f, p, Idle, Some([]), k) == Remaining(site, s, f, p, Idle, None, k)
  {
    assert insert == insert[..n] + insert[n..];
  }

  lemma InsertProgress(site: Site, s: seq<byte>, f: nat, p: nat, insert: seq<byte>, n: nat, k: nat, a: seq<byte>)
    requires p <= f <= |s| && p < |s| && n <= |insert|
    ensures a + Remaining(site, s, f, p, Idle, Some(insert), k) == (a + insert[..n]) +
      Remaining(site, s, f, p, Idle, Some(insert[n..]), k)
  {
    InsertStep(site, s, f, p, insert, n, k);
    Progress(a, insert[..n], Remaining(site, s, f, p, Idle, Some(insert[n..]), k));
  }

  /** When the whole file has been scanned and sent, nothing remains. */
  lemma NothingRemains(site: Site, s: seq<byte>, sc: Scan, insert: Option<seq<byte>>, k: nat)
    requires Good(sc)
    ensures Remaining(site, s, |s|, |s|, sc, insert, k) == []
  {
  }

  lemma HasFirst(b: seq<Tag>)
    ensures b != [] ==> exists t :: t in b
  {
    if b != [] {
      assert b[0] in b;
    }
  }

  lemma {:induction false} SameOrdered(a: seq<Tag>, b: seq<Tag>, p: nat, size: nat)
    requires Ordered(a, p, size) && Ordered(b, p, size) && forall t :: t in a <==> t in b
    ensures a == b
    decreases |a|
  {
    if a == [] {
      HasFirst(b);
    } else {
      assert a[0] in b && b != [] && b[0] in a;
      assert a[0] == b[0];
      forall t: Tag
        ensures t in a[1..] <==> t in b[1..]
      {
        OthersLater(a, p, size, t);
        OthersLater(b, p, size, t);
      }
      SameOrdered(a[1..], b[1..], p, size);
    }
  }

  lemma OthersLater(a: seq<Tag>, p: nat, size: nat, t: Tag)
    requires Ordered(a, p, size) && a != []
    ensures t in a[1..] <==> t in a && t != a[0]
  {
    assert a == [a[0]] + a[1..];
  }

  /** The tags that the expansion serves, without a word about scanning beyond where it is idle: they
      are the tags of the file that start there, in the order of their ends. */
  lemma ExpansionTags(s: seq<byte>, tags: seq<Tag>)
    ensures tags == Tags(s, 0, Idle) <==>
      Ordered(tags, 0, |s|) && forall t :: t in tags <==> TagEnds(s, t.name, t.end)
  {
    TagsOrdered(s, 0, Idle);
    forall t: Tag
      ensures t in Tags(s, 0, Idle) <==> TagEnds(s, t.name, t.end)
    {
      FoundExactly(s, t);
    }
    if Ordered(tags, 0, |s|) && forall t :: t in tags <==> TagEnds(s, t.name, t.end) {
      SameOrdered(tags, Tags(s, 0, Idle), 0, |s|);
    }
  }

  predicate AllEmpty(site: Site, tags: seq<Tag>, k: nat) {
    forall j :: 0 <= j < |tags| ==> InsertFor(site, tags[j].name, k + j) == []
  }

  /** From the end of the file on, the expansion is nothing but the inserts. */
  lemma {:induction false} InsertsAlone(site: Site, s: seq<byte>, tags: seq<Tag>, k: nat)
    requires Ordered(tags, 0, |s|)
    ensures Expansion(site, s, |s|, tags, k) == [] <==> AllEmpty(site, tags, k)
    decreases |tags|
  {
    if tags != [] {
      InsertsAlone(site, s, tags[1..], k + 1);
      assert Max(|s|, tags[0].end) == |s| && s[|s|..|s|] == [];
      FirstAndRest(site, tags, k);
    }
  }

  lemma FirstAndRest(site: Site, tags: seq<Tag>, k: nat)
    requires tags != []
    ensures AllEmpty(site, tags, k) <==> InsertFor(site, tags[0].name, k) == [] && AllEmpty(site, tags[1..], k + 1)
  {
    if AllEmpty(site, tags, k) {
      forall j | 0 <= j < |tags[1..]|
        ensures InsertFor(site, tags[1..][j].name, k + 1 + j) == []
      {
        assert tags[1..][j] == tags[j + 1];
      }
    }
    if InsertFor(site, tags[0].name, k) == [] && AllEmpty(site, tags[1..], k + 1) {
      forall j | 0 <= j < |tags|
        ensures InsertFor(site, tags[j].name, k + j) == []
      {
        if j > 0 {
          assert tags[1..][j - 1] == tags[j];
        }
      }
    }
  }

  /** No insert is due at the very end of the file. */
  predicate NoLastInsert(site: Site, s: seq<byte>, tags: seq<Tag>) {
    tags == [] || tags[|tags| - 1].end < |s| || InsertFor(site, tags[|tags| - 1].name, |tags| - 1) == []
  }

  /** A whole response is the expansion exactly if the file does not end in a tag with an insert; a
      response that starts at the end of the file is empty, and so is the expansion exactly if every
      insert is. */
  lemma ResponseIsExpansion(site: Site, s: seq<byte>, start: nat, tags: seq<Tag>)
    requires start <= |s| && tags == Tags(s, 0, Idle)
    ensures Ordered(tags, 0, |s|)
    ensures Body(site, s, start) == Expansion(site, s, start, tags, 0) <==>
      if start == |s| then AllEmpty(site, tags, 0)
      else NoLastInsert(site, s, tags)
  {
    TagsOrdered(s, 0, Idle);
    if start == |s| {
      InsertsAlone(site, s, tags, 0);
    } else {
      BodyIsExpansion(site, s, start, tags);
    }
  }

  lemma BodyIsExpansion(site: Site, s: seq<byte>, start: nat, tags: seq<Tag>)
    requires start < |s| && tags == Tags(s, 0, Idle) && Ordered(tags, 0, |s|)
    ensures Body(site, s, start) == Expansion(site, s, start, tags, 0) <==> NoLastInsert(site, s, tags)
  {
    BodyIsSent(site, s, start);
    SentIsExpansion(site, s, start, tags, 0);
  }

  /** A file with one tag, and something after it: the client gets the file with the text for the tag
      right behind it. */
  lemma OneTag(site: Site, s: seq<byte>, i: nat, name: seq<byte>, e: nat, n: nat)
    requires IdleTag(s, i, name, e) && e < |s| && forall t: Tag :: TagEnds(s, t.name, t.end) ==> t == Tag(name, e)
    requires n <= |name| && 0 !in name[..n] && (n == |name| || name[n] == 0)
    ensures forall h :: 0 <= h < |site.names| && FirstEqual(site.names, h, name[..n]) ==>
      Body(site, s, 0) == s[..e] + site.handler(h, 0) + s[e..]
    ensures name[..n] !in site.names ==>
      Body(site, s, 0) == s[..e] +
        ([60, 98, 62, 42, 42, 42, 85, 78, 75, 78, 79, 87, 78, 32, 84, 65, 71, 32] + name[..n] +
         [42, 42, 42, 60, 47, 98, 62])
        + s[e..]
  {
    OnlyTag(s, i, name, e);
    BodyIsSent(site, s, 0);
    OneSent(site, s, Tag(name, e));
    InsertIs(site, name, n, 0);
  }

  /** The tags are served one after the other: with two of them, and something after each, the handler is
      called for the first and then for the second. */
  lemma TwoTags(site: Site, s: seq<byte>, t: Tag, u: Tag, h: nat, g: nat)
    requires 0 < t.end < u.end < |s| && forall x: Tag :: TagEnds(s, x.name, x.end) <==> x == t || x == u
    requires 0 !in t.name && h < |site.names| && FirstEqual(site.names, h, t.name)
    requires 0 !in u.name && g < |site.names| && FirstEqual(site.names, g, u.name)
    ensures Body(site, s, 0) == s[..t.end] + site.handler(h, 0) + s[t.end..u.end] + site.handler(g, 1) + s[u.end..]
  {
    forall x: Tag
      ensures x in [t, u] <==> TagEnds(s, x.name, x.end)
    {
    }
    ExpansionTags(s, [t, u]);
    BodyIsSent(site, s, 0);
    TwoSent(site, s, t, u);
    NoZero(t.name);
    NoZero(u.name);
    InsertIs(site, t.name, |t.name|, 0);
    InsertIs(site, u.name, |u.name|, 1);
  }

  lemma TwoSent(site: Site, s: seq<byte>, t: Tag, u: Tag)
    requires 0 < t.end < u.end < |s|
    ensures Ordered([t, u], 0, |s|)
    ensures Sent(site, s, 0, [t, u], 0) ==
      s[..t.end] + InsertFor(site, t.name, 0) + s[t.end..u.end] + InsertFor(site, u.name, 1) + s[u.end..]
  {
    assert [t, u][1..] == [u] && [u][1..] == [] && s[0..t.end] == s[..t.end];
    assert Sent(site, s, t.end, [u], 1) == s[t.end..u.end] + InsertFor(site, u.name, 1) + s[u.end..];
  }

  lemma NoZero(name: seq<byte>)
    requires 0 !in name
    ensures 0 !in name[..|name|] && name[..|name|] == name
  {
  }

  lemma OnlyTag(s: seq<byte>, i: nat, name: seq<byte>, e: nat)
    requires IdleTag(s, i, name, e) && e < |s| && forall t: Tag :: TagEnds(s, t.name, t.end) ==> t == Tag(name, e)
    ensures Tags(s, 0, Idle) == [Tag(name, e)] && Ordered([Tag(name, e)], 0, |s|)
  {
    ExpansionTags(s, Tags(s, 0, Idle));
    forall t: Tag
      ensures t in [Tag(name, e)] <==> TagEnds(s, t.name, t.end)
    {
    }
    TagsOrdered(s, 0, Idle);
    assert Tag(name, e) in Tags(s, 0, Idle);
    ExpansionTags(s, [Tag(name, e)]);
  }

  lemma OneSent(site: Site, s: seq<byte>, t: Tag)
    requires 0 < t.end < |s|
    ensures Sent(site, s, 0, [t], 0) == s[..t.end] + InsertFor(site, t.name, 0) + s[t.end..]
  {
    assert [t][1..] == [] && s[0..t.end] == s[..t.end];
  }

  lemma BodyIsSent(site: Site, s: seq<byte>, start: nat)
    requires start < |s| && Ordered(Tags(s, 0, Idle), 0, |s|)
    ensures Body(site, s, start) == Sent(site, s, start, Tags(s, 0, Idle), 0)
  {
  }

  /** The shortest file that loses its insert: one tag and nothing after it. */
  lemma LoneTag(site: Site, s: seq<byte>)
    requires s == [60, 33, 45, 45, 35, 120, 45, 45, 62]
    ensures Body(site, s, 0) == s
    ensures Tags(s, 0, Idle) == [Tag([120], 9)] &&
      Expansion(site, s, 0, [Tag([120], 9)], 0) == s + InsertFor(site, [120], 0)
  {
    assert Opening(s, 0, 5, 6, [120]) by {
      assert s[0..5] == LEADIN && s[5..5] == [] && s[5..6] == [120];
    }
    assert Closing(s, 6, 6, 9, 3) by {
      assert s[6..6] == [] && s[6..9] == LEADOUT && LEADOUT[..3] == LEADOUT;
    }
    assert IsTag(s, 0, [120], 9);
    TagIsFound(s, 0, [120], 9);
    AtTheEnd(site, s, 0, Tag([120], 9), 0);
  }
}
